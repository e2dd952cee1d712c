/**
 * The few Python `str` operations the converter relies on, written out as
 * functions on `seq<char>`: `startswith`, `find`/`index`, `replace`,
 * `split`, `join`, `lstrip` and the decimal formatting of an `int` that an
 * f-string performs.  Each operation is paired with a property that pins it
 * down (a round trip, an absence result, a splitting law).
 */
module Strings {

  /** `s.startswith(p)` */
  predicate StartsWith(s: string, p: string)
  {
    |p| <= |s| && s[..|p|] == p
  }

  /** `pat` occurs in `s` starting at index `i`. */
  predicate OccursAt(s: string, pat: string, i: int)
  {
    0 <= i && i + |pat| <= |s| && s[i..i + |pat|] == pat
  }

  /** `pat in s` */
  predicate Contains(s: string, pat: string)
  {
    exists i | 0 <= i <= |s| - |pat| :: OccursAt(s, pat, i)
  }

  /** `s.find(pat)`: the first index at which `pat` occurs, or -1. */
  function Find(s: string, pat: string): (r: int)
    ensures r == -1 <==> !Contains(s, pat)
    ensures r != -1 ==> OccursAt(s, pat, r) && forall j :: 0 <= j < r ==> !OccursAt(s, pat, j)
    decreases |s|
  {
    if |pat| > |s| then
      -1
    else if StartsWith(s, pat) then
      assert OccursAt(s, pat, 0);
      0
    else
      var k := Find(s[1..], pat);
      ShiftOccurrence(s, pat);
      if k == -1 then -1 else k + 1
  }

  /** An occurrence in `s[1..]` is an occurrence in `s` one place further on. */
  lemma ShiftOccurrence(s: string, pat: string)
    requires |s| > 0
    ensures forall j :: 0 <= j ==> (OccursAt(s[1..], pat, j) <==> OccursAt(s, pat, j + 1))
    ensures forall j :: 1 <= j ==> (OccursAt(s, pat, j) <==> OccursAt(s[1..], pat, j - 1))
  {
    forall j | 0 <= j ensures OccursAt(s[1..], pat, j) <==> OccursAt(s, pat, j + 1) {
      if j + |pat| <= |s| - 1 {
        assert s[1..][j..j + |pat|] == s[j + 1..j + 1 + |pat|];
      }
    }
  }

  /**
   * `s.replace(pat, rep)`: scans left to right and replaces each
   * non-overlapping occurrence.  With an empty `pat`, Python inserts `rep`
   * before every character and at the end.
   */
  function ReplaceAll(s: string, pat: string, rep: string): string
    decreases |s|, if StartsWith(s, pat) then 1 else 0
  {
    if |pat| == 0 then
      if s == [] then rep else rep + [s[0]] + ReplaceAll(s[1..], pat, rep)
    else if StartsWith(s, pat) then
      rep + ReplaceAll(s[|pat|..], pat, rep)
    else if s == [] then
      []
    else
      [s[0]] + ReplaceAll(s[1..], pat, rep)
  }

  /** With a non-empty pattern and replacement, `replace` leaves a non-empty string non-empty. */
  lemma ReplaceNonEmpty(s: string, pat: string, rep: string)
    requires |pat| > 0 && |rep| > 0 && s != []
    ensures ReplaceAll(s, pat, rep) != []
  {
  }

  /**
   * A replacement longer than the pattern either changes nothing or makes
   * the string at least that much longer.
   */
  lemma {:induction false} ReplaceGrows(s: string, pat: string, rep: string)
    requires |pat| > 0 && |rep| >= |pat|
    ensures var r := ReplaceAll(s, pat, rep);
      r == s || |s| + (|rep| - |pat|) <= |r|
    decreases |s|
  {
    if StartsWith(s, pat) {
      ReplaceGrows(s[|pat|..], pat, rep);
    } else if s != [] {
      ReplaceGrows(s[1..], pat, rep);
      if ReplaceAll(s[1..], pat, rep) == s[1..] {
        assert [s[0]] + s[1..] == s;
      }
    }
  }

  /** A string without the pattern is returned unchanged by `replace`. */
  lemma {:induction false} ReplaceAbsent(s: string, pat: string, rep: string)
    requires |pat| > 0 && !Contains(s, pat)
    ensures ReplaceAll(s, pat, rep) == s
    decreases |s|
  {
    if s != [] {
      assert !StartsWith(s, pat) by {
        if StartsWith(s, pat) { assert OccursAt(s, pat, 0); }
      }
      ShiftOccurrence(s, pat);
      ReplaceAbsent(s[1..], pat, rep);
    }
  }

  /** No occurrence of `pat` in `a + b` starts in `a` and ends in `b`. */
  predicate NoStraddle(a: string, b: string, pat: string)
  {
    forall i :: 0 <= i < |a| < i + |pat| ==> !OccursAt(a + b, pat, i)
  }

  /** Dropping a prefix of `a` keeps occurrences from straddling the seam. */
  lemma NoStraddleDrop(a: string, b: string, pat: string, k: nat)
    requires k <= |a| && NoStraddle(a, b, pat)
    ensures NoStraddle(a[k..], b, pat)
  {
    var a' := a[k..];
    assert (a + b)[k..] == a' + b;
    forall i | 0 <= i < |a'| < i + |pat| ensures !OccursAt(a' + b, pat, i) {
      assert !OccursAt(a + b, pat, i + k);
      if i + |pat| <= |a' + b| {
        assert (a' + b)[i..i + |pat|] == (a + b)[i + k..i + k + |pat|];
      }
    }
  }

  /** `replace` distributes over a concatenation that no occurrence straddles. */
  lemma {:induction false} ReplaceAppend(a: string, b: string, pat: string, rep: string)
    requires |pat| > 0 && NoStraddle(a, b, pat)
    ensures ReplaceAll(a + b, pat, rep) == ReplaceAll(a, pat, rep) + ReplaceAll(b, pat, rep)
    decreases |a|
  {
    if a == [] {
      assert a + b == b;
    } else if StartsWith(a + b, pat) {
      assert |pat| <= |a| by {
        assert OccursAt(a + b, pat, 0);
      }
      assert StartsWith(a, pat) by {
        assert a[..|pat|] == (a + b)[..|pat|];
      }
      NoStraddleDrop(a, b, pat, |pat|);
      assert (a + b)[|pat|..] == a[|pat|..] + b;
      ReplaceAppend(a[|pat|..], b, pat, rep);
    } else {
      assert !StartsWith(a, pat) by {
        assert |pat| <= |a| ==> (a + b)[..|pat|] == a[..|pat|];
      }
      NoStraddleDrop(a, b, pat, 1);
      assert (a + b)[1..] == a[1..] + b;
      ReplaceAppend(a[1..], b, pat, rep);
    }
  }

  /** `a` has no occurrence of `c` among its last `n` characters. */
  predicate TailFree(a: string, c: char, n: nat)
  {
    forall i :: 0 <= i < |a| && |a| - n <= i ==> a[i] != c
  }

  /** If the tail of `a` cannot begin the pattern, nothing straddles. */
  lemma TailFreeNoStraddle(a: string, b: string, pat: string)
    requires |pat| > 0 && TailFree(a, pat[0], |pat| - 1)
    ensures NoStraddle(a, b, pat)
  {
    forall i | 0 <= i < |a| < i + |pat| ensures !OccursAt(a + b, pat, i) {
      if i + |pat| <= |a + b| {
        assert (a + b)[i..i + |pat|][0] == a[i];
      }
    }
  }

  /** A string none of whose characters is `pat[0]` cannot contain `pat`. */
  lemma FirstCharAbsent(s: string, pat: string)
    requires |pat| > 0 && forall i :: 0 <= i < |s| ==> s[i] != pat[0]
    ensures !Contains(s, pat)
  {
    forall i | 0 <= i <= |s| - |pat| ensures !OccursAt(s, pat, i) {
      assert s[i..i + |pat|][0] == s[i];
    }
  }

  /**
   * One occurrence of `pat` is the only thing `replace` changes when the text
   * before it neither contains it nor ends in something that could begin it,
   * and the text after it does not contain it.
   */
  lemma ReplaceOnce(a: string, b: string, pat: string, rep: string)
    requires |pat| > 0
    requires !Contains(a, pat) && TailFree(a, pat[0], |pat| - 1)
    requires !Contains(b, pat)
    ensures ReplaceAll(a + pat + b, pat, rep) == a + rep + b
  {
    TailFreeNoStraddle(a, pat + b, pat);
    ReplaceAppend(a, pat + b, pat, rep);
    ReplaceAbsent(a, pat, rep);
    ReplaceAbsent(b, pat, rep);
    assert a + pat + b == a + (pat + b);
    assert StartsWith(pat + b, pat);
    assert (pat + b)[|pat|..] == b;
  }

  /**
   * Text without `pat[0]` appended to a string that neither contains `pat`
   * nor ends in a possible start of it keeps both facts.
   */
  lemma AppendFree(a: string, b: string, pat: string)
    requires |pat| > 0 && !Contains(a, pat) && TailFree(a, pat[0], |pat| - 1)
    requires forall i :: 0 <= i < |b| ==> b[i] != pat[0]
    ensures !Contains(a + b, pat) && TailFree(a + b, pat[0], |pat| - 1)
  {
    var s := a + b;
    forall i | 0 <= i <= |s| - |pat| ensures !OccursAt(s, pat, i) {
      assert s[i..i + |pat|][0] == s[i];
      if i + |pat| <= |a| {
        assert s[i..i + |pat|] == a[i..i + |pat|];
        assert !OccursAt(a, pat, i);
      } else if i < |a| {
        assert s[i] == a[i];
      } else {
        assert s[i] == b[i - |a|];
      }
    }
    forall i | 0 <= i < |s| && |s| - (|pat| - 1) <= i ensures s[i] != pat[0] {
      if i < |a| { assert s[i] == a[i]; } else { assert s[i] == b[i - |a|]; }
    }
  }

  /** Two strings without `pat`, the first not ending in a possible start of it, make one without `pat`. */
  lemma ConcatFree(a: string, c: string, pat: string)
    requires |pat| > 0 && !Contains(a, pat) && TailFree(a, pat[0], |pat| - 1)
    requires !Contains(c, pat)
    ensures !Contains(a + c, pat)
  {
    var s := a + c;
    forall i | 0 <= i <= |s| - |pat| ensures !OccursAt(s, pat, i) {
      if i + |pat| <= |a| {
        assert s[i..i + |pat|] == a[i..i + |pat|];
        assert !OccursAt(a, pat, i);
      } else if i < |a| {
        assert s[i..i + |pat|][0] == a[i];
      } else {
        assert s[i..i + |pat|] == c[i - |a|..i - |a| + |pat|];
        assert !OccursAt(c, pat, i - |a|);
      }
    }
  }

  /** Text without `pat[0]` put in front of a string without `pat` adds no occurrence. */
  lemma PrependFree(a: string, b: string, pat: string)
    requires |pat| > 0 && forall i :: 0 <= i < |a| ==> a[i] != pat[0]
    requires !Contains(b, pat)
    ensures !Contains(a + b, pat)
  {
    var s := a + b;
    forall i | 0 <= i <= |s| - |pat| ensures !OccursAt(s, pat, i) {
      assert s[i..i + |pat|][0] == s[i];
      if i < |a| {
        assert s[i] == a[i];
      } else {
        assert s[i..i + |pat|] == b[i - |a|..i - |a| + |pat|];
        assert !OccursAt(b, pat, i - |a|);
      }
    }
  }

  /** The characters of all the pieces together. */
  function TotalLength(xs: seq<string>): nat
  {
    if xs == [] then 0 else |xs[0]| + TotalLength(xs[1..])
  }

  /** `sep.join(xs)`: every piece once, in order, with one separator between neighbours. */
  function Join(xs: seq<string>, sep: string): (r: string)
    ensures xs == [] ==> r == ""
    ensures xs != [] ==> |r| == TotalLength(xs) + (|xs| - 1) * |sep|
    ensures xs != [] ==> StartsWith(r, xs[0])
  {
    if |xs| == 0 then ""
    else if |xs| == 1 then xs[0]
    else xs[0] + sep + Join(xs[1..], sep)
  }

  /** `s.split(sep)` for a non-empty separator (Python rejects an empty one). */
  function Split(s: string, sep: string): (r: seq<string>)
    requires |sep| > 0
    ensures |r| >= 1
    decreases |s|
  {
    var i := Find(s, sep);
    if i == -1 then [s] else [s[..i]] + Split(s[i + |sep|..], sep)
  }

  /** Splitting and joining with the same separator gives the string back. */
  lemma {:induction false} JoinSplit(s: string, sep: string)
    requires |sep| > 0
    ensures Join(Split(s, sep), sep) == s
    decreases |s|
  {
    var i := Find(s, sep);
    if i != -1 {
      var rest := s[i + |sep|..];
      JoinSplit(rest, sep);
      assert Split(s, sep) == [s[..i]] + Split(rest, sep);
      assert s == s[..i] + sep + rest;
    }
  }

  /** No piece produced by `split` contains the separator. */
  lemma {:induction false} SplitPiecesFree(s: string, sep: string)
    requires |sep| > 0
    ensures forall k :: 0 <= k < |Split(s, sep)| ==> !Contains(Split(s, sep)[k], sep)
    decreases |s|
  {
    var i := Find(s, sep);
    if i != -1 {
      var rest := s[i + |sep|..];
      SplitPiecesFree(rest, sep);
      forall j | 0 <= j <= i - |sep| ensures !OccursAt(s[..i], sep, j) {
        assert !OccursAt(s, sep, j);
        assert s[..i][j..j + |sep|] == s[j..j + |sep|];
      }
    }
  }

  /** The characters Python's `str.isspace` accepts, which `lstrip()` removes. */
  predicate IsSpace(c: char)
  {
    c == ' ' || ('\t' <= c <= '\r') || ('\U{1C}' <= c <= '\U{1F}') ||
    c == '\U{85}' || c == '\U{A0}' || c == '\U{1680}' ||
    ('\U{2000}' <= c <= '\U{200A}') || c == '\U{2028}' || c == '\U{2029}' ||
    c == '\U{202F}' || c == '\U{205F}' || c == '\U{3000}'
  }

  /** `s` without its leading run of characters satisfying `drop`. */
  function DropWhile(s: string, drop: char -> bool): string
  {
    if s != [] && drop(s[0]) then DropWhile(s[1..], drop) else s
  }

  /** `s.lstrip()`: a suffix of `s` that does not start with white space. */
  function LStrip(s: string): (r: string)
    ensures r == [] || !IsSpace(r[0])
  {
    DropWhileDropsLeadingRun(s, IsSpace);
    DropWhile(s, IsSpace)
  }

  /** `DropWhile` removes exactly the leading run of characters satisfying `drop`. */
  lemma {:induction false} DropWhileDropsLeadingRun(s: string, drop: char -> bool)
    ensures |DropWhile(s, drop)| <= |s| && DropWhile(s, drop) == s[|s| - |DropWhile(s, drop)|..]
    ensures DropWhile(s, drop) == [] || !drop(DropWhile(s, drop)[0])
    ensures forall i :: 0 <= i < |s| - |DropWhile(s, drop)| ==> drop(s[i])
  {
    if s != [] && drop(s[0]) {
      var t := s[1..];
      DropWhileDropsLeadingRun(t, drop);
      forall i | 0 <= i < |s| - |DropWhile(s, drop)| ensures drop(s[i]) {
        if i > 0 { assert s[i] == t[i - 1]; }
      }
    }
  }

  /** `lstrip()` drops the leading white space and nothing else. */
  lemma LStripDropsLeadingSpace(s: string)
    ensures |LStrip(s)| <= |s| && LStrip(s) == s[|s| - |LStrip(s)|..]
    ensures LStrip(s) == [] || !IsSpace(LStrip(s)[0])
    ensures forall i :: 0 <= i < |s| - |LStrip(s)| ==> IsSpace(s[i])
  {
    DropWhileDropsLeadingRun(s, IsSpace);
  }

  /** The decimal digit for `d`. */
  function DigitChar(d: nat): char
    requires d < 10
  {
    ('0' as int + d) as char
  }

  /** `str(n)` for a natural number: decimal digits, no leading zeros. */
  function NatToString(n: nat): (r: string)
    ensures |r| >= 1
    ensures forall i :: 0 <= i < |r| ==> '0' <= r[i] <= '9'
    ensures |r| > 1 ==> r[0] != '0'
  {
    if n < 10 then [DigitChar(n)] else NatToString(n / 10) + [DigitChar(n % 10)]
  }

  /** `str(i)` (and `f"{i}"`) for any integer: a minus sign before negatives. */
  function IntToString(i: int): (r: string)
    ensures |r| >= 1
    ensures r[0] == '-' <==> i < 0
  {
    if i < 0 then "-" + NatToString(-i) else NatToString(i)
  }

  /** Reads a string of decimal digits back as a number. */
  function ParseDigits(s: string): nat
    requires forall i :: 0 <= i < |s| ==> '0' <= s[i] <= '9'
  {
    if s == [] then 0 else 10 * ParseDigits(s[..|s| - 1]) + (s[|s| - 1] - '0') as nat
  }

  /** Decimal printing of a natural number is undone by reading the digits. */
  lemma {:induction false} ParseNatToString(n: nat)
    ensures ParseDigits(NatToString(n)) == n
  {
    if n >= 10 {
      ParseNatToString(n / 10);
      var s := NatToString(n);
      assert s[..|s| - 1] == NatToString(n / 10);
      assert (s[|s| - 1] - '0') as nat == n % 10;
      assert n == 10 * (n / 10) + n % 10;
    }
  }

  /** Hence distinct numbers print differently. */
  lemma NatToStringInjective(m: nat, n: nat)
    requires NatToString(m) == NatToString(n)
    ensures m == n
  {
    ParseNatToString(m);
    ParseNatToString(n);
  }
}
