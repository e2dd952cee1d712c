/**
 * The source-merging steps of the build script that concatenates the `src`
 * modules into one file: the partition of a file's rows into import rows
 * and code rows, the removal of `"""` blocks, and the merge of import
 * statements that folds every `from M import ...` of one module into a
 * single line.
 */
module Builder {
  import opened Results
  import opened Strings

  /** No element occurs twice. */
  predicate NoDuplicates(s: seq<string>)
  {
    forall i, j :: 0 <= i < j < |s| ==> s[i] != s[j]
  }

  // ---------------------------------------------------------------------
  // The row partition of `get_codes_with_splitted_import_states`.

  /** A row that starts, at column 0, with `import` or `from`. */
  predicate IsImportRow(row: string)
  {
    StartsWith(row, "import") || StartsWith(row, "from")
  }

  /** The rows for which `IsImportRow` is `imports`, in their order. */
  function Filter(rows: seq<string>, imports: bool): seq<string>
  {
    if rows == [] then []
    else Filter(rows[..|rows| - 1], imports) + (if IsImportRow(rows[|rows| - 1]) == imports then [rows[|rows| - 1]] else [])
  }

  /** The partition loop over a file's rows. */
  method PartitionRows(rows: seq<string>) returns (importStatements: seq<string>, codes: seq<string>)
    ensures importStatements == Filter(rows, true)
    ensures codes == Filter(rows, false)
  {
    importStatements, codes := [], [];
    var i := 0;
    while i < |rows|
      invariant 0 <= i <= |rows|
      invariant importStatements == Filter(rows[..i], true) && codes == Filter(rows[..i], false)
    {
      assert rows[..i + 1][..i] == rows[..i];
      var row := rows[i];
      if StartsWith(row, "import") || StartsWith(row, "from") {
        importStatements := importStatements + [row];
      } else {
        codes := codes + [row];
      }
      i := i + 1;
    }
    assert rows[..i] == rows;
  }

  /** Every row lands in one of the two lists, as often as it occurs. */
  lemma {:induction false} PartitionIsExact(rows: seq<string>)
    ensures multiset(Filter(rows, true)) + multiset(Filter(rows, false)) == multiset(rows)
  {
    if rows != [] {
      var init, last := rows[..|rows| - 1], rows[|rows| - 1];
      PartitionIsExact(init);
      assert multiset(rows) == multiset(init) + multiset{last} by {
        assert rows == init + [last];
      }
      assert multiset(Filter(rows, true)) + multiset(Filter(rows, false)) ==
             multiset(Filter(init, true)) + multiset(Filter(init, false)) + multiset{last} by {
        if IsImportRow(last) {
          assert Filter(rows, true) == Filter(init, true) + [last];
        } else {
          assert Filter(rows, false) == Filter(init, false) + [last];
        }
      }
    }
  }

  /** Each list holds only rows of its own kind. */
  lemma {:induction false} FilterKeepsKind(rows: seq<string>, imports: bool)
    ensures forall r :: r in Filter(rows, imports) ==> IsImportRow(r) == imports
  {
    if rows != [] {
      FilterKeepsKind(rows[..|rows| - 1], imports);
    }
  }

  // ---------------------------------------------------------------------
  // `delete_block_comment`.

  /** A row whose text, after leading white space, starts with `"""`. */
  predicate IsDelimiter(row: string)
  {
    StartsWith(LStrip(row), "\"\"\"")
  }

  /**
   * How many rows of `rows` are delimiters.  The block functions and their
   * lemmas take the delimiter test as a parameter `delim`; the stripper
   * uses them with `IsDelimiter`.
   */
  function Delimiters(rows: seq<string>, delim: string -> bool): nat
  {
    if rows == [] then 0
    else Delimiters(rows[..|rows| - 1], delim) + (if delim(rows[|rows| - 1]) then 1 else 0)
  }

  /**
   * The rows kept: those that are not delimiters and are preceded by an even
   * number of delimiter rows, i.e. lie outside every `"""` block.
   */
  function Outside(rows: seq<string>, delim: string -> bool): seq<string>
  {
    if rows == [] then []
    else
      var init, last := rows[..|rows| - 1], rows[|rows| - 1];
      Outside(init, delim) + (if !delim(last) && Delimiters(init, delim) % 2 == 0 then [last] else [])
  }

  /** Appending one row extends the kept rows and the delimiter count by that row alone. */
  lemma AppendRow(rows: seq<string>, row: string, delim: string -> bool)
    ensures Outside(rows + [row], delim) == Outside(rows, delim) + (if !delim(row) && Delimiters(rows, delim) % 2 == 0 then [row] else [])
    ensures Delimiters(rows + [row], delim) == Delimiters(rows, delim) + (if delim(row) then 1 else 0)
  {
    assert (rows + [row])[..|rows|] == rows;
  }

  /** One row of the scan: how the kept rows and the open-block flag move on. */
  lemma ScanStep(rows: seq<string>, row: string, delim: string -> bool, inBlock: bool)
    requires inBlock <==> Delimiters(rows, delim) % 2 == 1
    ensures Outside(rows + [row], delim) == Outside(rows, delim) + (if !delim(row) && !inBlock then [row] else [])
    ensures Delimiters(rows + [row], delim) % 2 == 1 <==> inBlock != delim(row)
  {
    assert (rows + [row])[..|rows|] == rows;
  }

  /** `delete_block_comment(codes)`: the two-state scan over the rows. */
  method DeleteBlockComment(codes: seq<string>) returns (result: seq<string>)
    ensures result == Outside(codes, IsDelimiter)
  {
    result := [];
    var inBlockComment := false;
    var i := 0;
    while i < |codes|
      invariant 0 <= i <= |codes|
      invariant result == Outside(codes[..i], IsDelimiter)
      invariant inBlockComment <==> Delimiters(codes[..i], IsDelimiter) % 2 == 1
    {
      var row := codes[i];
      var startswithComment := IsDelimiter(row);
      ScanStep(codes[..i], row, IsDelimiter, inBlockComment);
      assert codes[..i + 1] == codes[..i] + [row];
      if startswithComment && !inBlockComment {
        inBlockComment := true;
      } else if !startswithComment && inBlockComment {
      } else if startswithComment && inBlockComment {
        inBlockComment := false;
      } else {
        result := result + [row];
      }
      i := i + 1;
    }
    assert codes[..i] == codes;
  }

  /** `xs` is `ys` with some elements left out, the rest in their order. */
  predicate Subsequence(xs: seq<string>, ys: seq<string>)
    decreases |ys|
  {
    xs == [] ||
    (ys != [] &&
     (Subsequence(xs, ys[..|ys| - 1]) ||
      (xs[|xs| - 1] == ys[|ys| - 1] && Subsequence(xs[..|xs| - 1], ys[..|ys| - 1]))))
  }

  /** The stripper only drops rows; what it keeps stays in order. */
  lemma {:induction false} OutsideIsSubsequence(rows: seq<string>, delim: string -> bool)
    ensures Subsequence(Outside(rows, delim), rows)
  {
    if rows != [] {
      var init, last := rows[..|rows| - 1], rows[|rows| - 1];
      OutsideIsSubsequence(init, delim);
      var xs := Outside(rows, delim);
      if !delim(last) && Delimiters(init, delim) % 2 == 0 {
        assert xs[..|xs| - 1] == Outside(init, delim);
        assert xs[|xs| - 1] == rows[|rows| - 1];
      } else {
        assert xs == Outside(init, delim);
      }
    }
  }

  /** No delimiter row is ever kept. */
  lemma {:induction false} DelimitersDropped(rows: seq<string>, delim: string -> bool)
    ensures forall r :: r in Outside(rows, delim) ==> !delim(r)
  {
    if rows != [] {
      DelimitersDropped(rows[..|rows| - 1], delim);
    }
  }

  /** Rows without any delimiter come back unchanged. */
  lemma {:induction false} NoDelimitersUnchanged(rows: seq<string>, delim: string -> bool)
    requires forall i :: 0 <= i < |rows| ==> !delim(rows[i])
    ensures Delimiters(rows, delim) == 0
    ensures Outside(rows, delim) == rows
  {
    if rows != [] {
      var init := rows[..|rows| - 1];
      NoDelimitersUnchanged(init, delim);
      assert rows == init + [rows[|rows| - 1]];
    }
  }

  /**
   * A delimiter row opening a block (such as a one-line `"""doc"""`, which
   * opens and never closes) hides every following row up to the next
   * delimiter row.
   */
  lemma {:induction false} OpenBlockHidesRows(before: seq<string>, opening: string, rest: seq<string>, delim: string -> bool)
    requires Delimiters(before, delim) % 2 == 0 && delim(opening)
    requires forall i :: 0 <= i < |rest| ==> !delim(rest[i])
    ensures Outside(before + [opening] + rest, delim) == Outside(before, delim)
    ensures Delimiters(before + [opening] + rest, delim) == Delimiters(before, delim) + 1
  {
    AppendRow(before, opening, delim);
    HiddenTail(before + [opening], rest, delim);
  }

  /** Rows after an unmatched delimiter, none of them a delimiter, are all hidden. */
  lemma {:induction false} HiddenTail(front: seq<string>, rest: seq<string>, delim: string -> bool)
    requires Delimiters(front, delim) % 2 == 1
    requires forall i :: 0 <= i < |rest| ==> !delim(rest[i])
    ensures Outside(front + rest, delim) == Outside(front, delim)
    ensures Delimiters(front + rest, delim) == Delimiters(front, delim)
  {
    if rest == [] {
      assert front + rest == front;
    } else {
      var init, last := rest[..|rest| - 1], rest[|rest| - 1];
      HiddenTail(front, init, delim);
      assert front + rest == (front + init) + [last] by {
        assert rest == init + [last];
      }
      AppendRow(front + init, last, delim);
    }
  }

  // ---------------------------------------------------------------------
  // `merge_import_statements`.

  /** Why the merge raises. */
  datatype MergeError =
    | IndexError   // a `from` statement with no second word
    | ValueError   // a `from` statement of a kept module without `import`

  /** What one pass of the merge loop makes of a statement. */
  datatype Statement =
    | PassThrough                                     // not a `from` statement: kept as it is
    | OwnModule                                       // `from M ...` with `M` in `lib_names`: dropped
    | FromModule(lib: string, names: seq<string>)  // names to merge under `lib`
    | Invalid(error: MergeError)                      // the loop raises

  /**
   * The body of the merge loop for one statement `s`: its module is the
   * second word of `s` split on single spaces, its names what follows the
   * first `import` and one more character (nothing when `s` ends there),
   * newlines removed, split on `", "`.
   */
  function Classify(s: string, libNames: seq<string>): (r: Statement)
    ensures r.PassThrough? <==> !StartsWith(s, "from")
    ensures r == Invalid(IndexError) <==> StartsWith(s, "from") && !Contains(s, " ")
    ensures r.FromModule? ==> r.lib !in libNames && !Contains(r.lib, " ") && Contains(s, "import")
  {
    if !StartsWith(s, "from") then PassThrough
    else
      var words := Split(s, " ");
      SplitPiecesFree(s, " ");
      if |words| < 2 then
        Invalid(IndexError)
      else if words[1] in libNames then
        OwnModule
      else
        var i := Find(s, "import");
        if i == -1 then Invalid(ValueError)
        else
          var start := if i + |"import "| <= |s| then i + |"import "| else |s|;
          FromModule(words[1], Split(ReplaceAll(s[start..], "\n", ""), ", "))
  }

  /** The elements of a list, as a set. */
  ghost function Elements(xs: seq<string>): set<string>
  {
    set x | x in xs
  }

  /** `Classify` with the merged file's own module names fixed. */
  function Classifier(libNames: seq<string>): string -> Statement
  {
    s => Classify(s, libNames)
  }

  /** The modules that get a merged line. */
  ghost function Surviving(states: set<string>, classify: string -> Statement): set<string>
  {
    set s | s in states && classify(s).FromModule? :: classify(s).lib
  }

  /** Every name imported from module `m` by the statements. */
  ghost function NamesFor(states: set<string>, classify: string -> Statement, m: string): set<string>
  {
    set s, n | s in states && classify(s).FromModule? && classify(s).lib == m &&
               n in classify(s).names :: n
  }

  /** `f"from {lib_name} import {', '.join(imps)}\n"` */
  function FromLine(m: string, names: seq<string>): string
  {
    "from " + m + " import " + Join(names, ", ") + "\n"
  }

  /** `list(set(xs))`: each element once, in an order the set chooses. */
  method Dedup(xs: seq<string>) returns (ys: seq<string>)
    ensures NoDuplicates(ys)
    ensures forall x :: x in ys <==> x in xs
  {
    var rest := set x | x in xs;
    ys := [];
    while rest != {}
      decreases |rest|
      invariant NoDuplicates(ys)
      invariant forall x :: x in ys ==> x in xs && x !in rest
      invariant forall x :: x in xs ==> x in ys || x in rest
      invariant forall x :: x in rest ==> x in xs
    {
      var x :| x in rest;
      ys := ys + [x];
      rest := rest - {x};
    }
  }

  /** A module with names is a surviving one. */
  lemma NamesOfSurviving(done: set<string>, classify: string -> Statement, m: string)
    ensures NamesFor(done, classify, m) != {} ==> m in Surviving(done, classify)
  {
    if NamesFor(done, classify, m) != {} {
      var n :| n in NamesFor(done, classify, m);
      var s0 :| s0 in done && classify(s0).FromModule? && classify(s0).lib == m && n in classify(s0).names;
    }
  }

  /** Visiting one more statement adds its module, if it has one, to the surviving ones. */
  lemma SurvivingInsert(done: set<string>, s: string, classify: string -> Statement)
    ensures Surviving(done + {s}, classify) ==
      Surviving(done, classify) + (if classify(s).FromModule? then {classify(s).lib} else {})
  {
  }

  /** Visiting one more statement adds its names to those of its module. */
  lemma NamesForInsert(done: set<string>, s: string, classify: string -> Statement, m: string)
    ensures NamesFor(done + {s}, classify, m) ==
      NamesFor(done, classify, m) +
      (var c := classify(s); if c.FromModule? && c.lib == m then Elements(c.names) else {})
  {
    var c := classify(s);
    if c.FromModule? && c.lib == m {
      forall n | n in c.names ensures n in NamesFor(done + {s}, classify, m) {
        assert s in done + {s};
      }
    }
  }

  /**
   * The state of the grouping loop after visiting the statements `done`:
   * the pass-through statements each once, the modules in first-visit order,
   * and each module's names.
   */
  ghost predicate Grouped(done: set<string>, classify: string -> Statement,
                          passThrough: seq<string>, keys: seq<string>, holder: map<string, seq<string>>)
  {
    (forall s :: s in done ==> !classify(s).Invalid?) &&
    NoDuplicates(passThrough) &&
    (forall s :: s in passThrough <==> s in done && classify(s).PassThrough?) &&
    NoDuplicates(keys) &&
    (forall m :: m in keys <==> m in holder) &&
    (forall m :: m in holder <==> m in Surviving(done, classify)) &&
    (forall m :: m in holder ==> Elements(holder[m]) == NamesFor(done, classify, m))
  }

  /** A statement that adds no names leaves the modules and their names as they were. */
  lemma VisitWithoutNames(done: set<string>, state: string, classify: string -> Statement,
                          passThrough: seq<string>, keys: seq<string>, holder: map<string, seq<string>>, next: set<string>)
    requires Grouped(done, classify, passThrough, keys, holder) && state !in done && next == done + {state}
    requires classify(state).PassThrough? || classify(state).OwnModule?
    ensures Grouped(next, classify,
                    if classify(state).PassThrough? then passThrough + [state] else passThrough, keys, holder)
  {
    SurvivingInsert(done, state, classify);
    forall m | m in holder ensures Elements(holder[m]) == NamesFor(done + {state}, classify, m) {
      NamesForInsert(done, state, classify, m);
    }
  }

  /** A statement of a module seen before appends its names to that module's. */
  lemma VisitKnownModule(done: set<string>, state: string, classify: string -> Statement,
                         passThrough: seq<string>, keys: seq<string>, holder: map<string, seq<string>>, next: set<string>)
    requires Grouped(done, classify, passThrough, keys, holder) && state !in done && next == done + {state}
    requires classify(state).FromModule? && classify(state).lib in holder
    ensures var c := classify(state);
      Grouped(next, classify, passThrough, keys, holder[c.lib := holder[c.lib] + c.names])
  {
    var c := classify(state);
    var holder' := holder[c.lib := holder[c.lib] + c.names];
    SurvivingInsert(done, state, classify);
    forall m | m in holder' ensures Elements(holder'[m]) == NamesFor(done + {state}, classify, m) {
      NamesForInsert(done, state, classify, m);
    }
  }

  /** A statement of a new module opens that module with its names. */
  lemma VisitNewModule(done: set<string>, state: string, classify: string -> Statement,
                       passThrough: seq<string>, keys: seq<string>, holder: map<string, seq<string>>, next: set<string>)
    requires Grouped(done, classify, passThrough, keys, holder) && state !in done && next == done + {state}
    requires classify(state).FromModule? && classify(state).lib !in holder
    ensures var c := classify(state);
      Grouped(next, classify, passThrough, keys + [c.lib], holder[c.lib := c.names])
  {
    var c := classify(state);
    var holder' := holder[c.lib := c.names];
    SurvivingInsert(done, state, classify);
    forall m | m in holder' ensures Elements(holder'[m]) == NamesFor(done + {state}, classify, m) {
      NamesForInsert(done, state, classify, m);
      if m == c.lib {
        NamesOfSurviving(done, classify, m);
      }
    }
  }

  /**
   * One pass of the grouping loop: the statement either raises, or is
   * filed as a pass-through statement, dropped as one of the merged file's
   * own modules, or has its names appended under its module.
   */
  method VisitStatement(state: string, libNames: seq<string>, passThrough: seq<string>, keys: seq<string>,
                        holder: map<string, seq<string>>, ghost done: set<string>)
    returns (error: Option<MergeError>, passThrough': seq<string>, keys': seq<string>, holder': map<string, seq<string>>)
    requires Grouped(done, Classifier(libNames), passThrough, keys, holder) && state !in done
    ensures error.Some? <==> Classify(state, libNames).Invalid?
    ensures error.Some? ==> Classify(state, libNames) == Invalid(error.value)
    ensures error.None? ==> Grouped(done + {state}, Classifier(libNames), passThrough', keys', holder')
  {
    ghost var classify := Classifier(libNames);
    ghost var next := done + {state};
    assert classify(state) == Classify(state, libNames);
    error, passThrough', keys', holder' := None, passThrough, keys, holder;
    match Classify(state, libNames) {
      case Invalid(e) =>
        error := Some(e);
      case PassThrough =>
        VisitWithoutNames(done, state, classify, passThrough, keys, holder, next);
        passThrough' := passThrough + [state];
      case OwnModule =>
        VisitWithoutNames(done, state, classify, passThrough, keys, holder, next);
      case FromModule(libName, imps) =>
        if libName in holder {
          VisitKnownModule(done, state, classify, passThrough, keys, holder, next);
          holder' := holder[libName := holder[libName] + imps];
        } else {
          VisitNewModule(done, state, classify, passThrough, keys, holder, next);
          holder' := holder[libName := imps];
          keys' := keys + [libName];
        }
    }
  }

  /**
   * The grouping loop of `merge_import_statements` over
   * `list(set(import_states))`, whose order Python leaves open, so the
   * order is a free choice here.  It raises on the first invalid statement
   * visited, and otherwise collects the pass-through statements and, per
   * module in first-visit order, the concatenated names.
   */
  method GroupStatements(importStates: seq<string>, libNames: seq<string>)
    returns (r: Result<(seq<string>, seq<string>, map<string, seq<string>>), MergeError>)
    ensures r.Ok? <==> forall s :: s in importStates ==> !Classify(s, libNames).Invalid?
    ensures r.Err? ==> exists s :: s in importStates && Classify(s, libNames) == Invalid(r.error)
    ensures r.Ok? ==> Grouped(Elements(importStates), Classifier(libNames), r.value.0, r.value.1, r.value.2)
  {
    var states := Dedup(importStates);
    var holder: map<string, seq<string>> := map[];
    var keys: seq<string> := [];
    var passThrough: seq<string> := [];
    var i := 0;
    while i < |states|
      invariant 0 <= i <= |states|
      invariant Grouped(Elements(states[..i]), Classifier(libNames), passThrough, keys, holder)
    {
      var state := states[i];
      assert Elements(states[..i + 1]) == Elements(states[..i]) + {state} by {
        assert states[..i + 1] == states[..i] + [state];
      }
      var error;
      error, passThrough, keys, holder := VisitStatement(state, libNames, passThrough, keys, holder, Elements(states[..i]));
      if error.Some? {
        return Err(error.value);
      }
      i := i + 1;
    }
    assert Elements(states[..i]) == Elements(importStates) by {
      assert states[..i] == states;
    }
    assert forall s :: s in importStates ==> !Classify(s, libNames).Invalid? by {
      forall s | s in importStates ensures !Classify(s, libNames).Invalid? {
        assert s in Elements(states) && Classifier(libNames)(s) == Classify(s, libNames);
      }
    }
    return Ok((passThrough, keys, holder));
  }

  /**
   * The emitting loop: one `from` line per module of `keys`, in that order,
   * each name of the module once.
   */
  method EmitMerged(keys: seq<string>, holder: map<string, seq<string>>) returns (lines: seq<string>, ghost nameLists: seq<seq<string>>)
    requires forall m :: m in keys ==> m in holder
    ensures |lines| == |keys| && |nameLists| == |keys|
    ensures forall i :: 0 <= i < |keys| ==>
      lines[i] == FromLine(keys[i], nameLists[i]) &&
      NoDuplicates(nameLists[i]) && Elements(nameLists[i]) == Elements(holder[keys[i]])
  {
    lines, nameLists := [], [];
    var k := 0;
    while k < |keys|
      invariant 0 <= k <= |keys|
      invariant |lines| == k && |nameLists| == k
      invariant forall i :: 0 <= i < k ==>
        lines[i] == FromLine(keys[i], nameLists[i]) &&
        NoDuplicates(nameLists[i]) && Elements(nameLists[i]) == Elements(holder[keys[i]])
    {
      var imps := Dedup(holder[keys[k]]);
      var importState := Join(imps, ", ");
      lines := lines + ["from " + keys[k] + " import " + importState + "\n"];
      nameLists := nameLists + [imps];
      k := k + 1;
    }
  }

  /**
   * `merge_import_statements(import_states, lib_names)`: raises as the first
   * invalid statement visited does; otherwise lists each distinct
   * non-`from` statement once, then one line per module outside `lib_names`
   * carrying every name imported from it, each once.  `passCount` and `mods`
   * say where the merged lines start and which module each is for.
   */
  method MergeImportStatements(importStates: seq<string>, libNames: seq<string>)
    returns (r: Result<seq<string>, MergeError>, ghost passCount: nat, ghost mods: seq<string>, ghost nameLists: seq<seq<string>>)
    ensures r.Ok? <==> forall s :: s in importStates ==> !Classify(s, libNames).Invalid?
    ensures r.Err? ==> exists s :: s in importStates && Classify(s, libNames) == Invalid(r.error)
    ensures r.Ok? ==>
      var out := r.value;
      var states := Elements(importStates);
      |out| == passCount + |mods| && |nameLists| == |mods| &&
      NoDuplicates(out[..passCount]) &&
      (forall s :: s in out[..passCount] <==> s in importStates && !StartsWith(s, "from")) &&
      NoDuplicates(mods) &&
      (forall m :: m in mods <==> m in Surviving(states, Classifier(libNames))) &&
      (forall i :: 0 <= i < |mods| ==>
         out[passCount + i] == FromLine(mods[i], nameLists[i]) && mods[i] !in libNames &&
         NoDuplicates(nameLists[i]) && Elements(nameLists[i]) == NamesFor(states, Classifier(libNames), mods[i]))
  {
    var grouped := GroupStatements(importStates, libNames);
    if grouped.Err? {
      return Err(grouped.error), 0, [], [];
    }
    var (passThrough, keys, holder) := grouped.value;
    var merged;
    merged, nameLists := EmitMerged(keys, holder);
    passCount, mods := |passThrough|, keys;
    r := Ok(passThrough + merged);
    assert r.value[..passCount] == passThrough;
    forall m | m in mods ensures m !in libNames {
      assert m in Surviving(Elements(importStates), Classifier(libNames));
    }
  }
}
