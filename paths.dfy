/**
 * The parts of `pathlib.PurePosixPath` the converter uses, on path strings
 * that are already in normal form (no `./` prefix, no doubled or trailing
 * `/`): `name`, `suffix`, `stem`, `parent`, `with_name` and the `/` join.
 */
module Paths {
  import opened Strings

  /** The index of the last `c` in `s`, or -1 (`str.rfind`). */
  function LastIndexOf(s: string, c: char): (r: int)
    ensures -1 <= r < |s|
    ensures r >= 0 ==> s[r] == c
    ensures forall i :: r < i < |s| ==> s[i] != c
    ensures r == -1 ==> forall i :: 0 <= i < |s| ==> s[i] != c
  {
    if s == [] then -1
    else if s[|s| - 1] == c then |s| - 1
    else LastIndexOf(s[..|s| - 1], c)
  }

  /** A `c` with no other `c` after it is the last one. */
  lemma LastIndexOfAt(s: string, c: char, k: int)
    requires 0 <= k < |s| && s[k] == c
    requires forall i :: k < i < |s| ==> s[i] != c
    ensures LastIndexOf(s, c) == k
  {
  }

  /** The last `c` of `prefix + tail` is the one of `tail` when `tail` has one. */
  lemma LastIndexOfAppend(prefix: string, tail: string, c: char)
    ensures LastIndexOf(tail, c) >= 0 ==> LastIndexOf(prefix + tail, c) == |prefix| + LastIndexOf(tail, c)
    ensures LastIndexOf(tail, c) == -1 ==> LastIndexOf(prefix + tail, c) == LastIndexOf(prefix, c)
  {
    var s := prefix + tail;
    var k := LastIndexOf(s, c);
    var t := LastIndexOf(tail, c);
    if t >= 0 {
      assert s[|prefix| + t] == c;
    } else {
      assert forall i :: 0 <= i < |tail| ==> tail[i] != c;
      var p := LastIndexOf(prefix, c);
      if p >= 0 { assert s[p] == c; }
      if k >= 0 && k < |prefix| { assert prefix[k] == c; }
    }
  }

  /** `PurePath.name`: the final component. */
  function Name(p: string): (r: string)
    ensures forall i :: 0 <= i < |r| ==> r[i] != '/'
  {
    p[LastIndexOf(p, '/') + 1..]
  }

  /** The dot that starts the suffix, if the name has one (pathlib's rule). */
  function SuffixDot(name: string): int
  {
    var i := LastIndexOf(name, '.');
    if 0 < i < |name| - 1 then i else -1
  }

  /** `PurePath.suffix`: from the last dot of the name, unless that dot is first or last. */
  function Suffix(p: string): (r: string)
    ensures r == [] || (r[0] == '.' && |r| >= 2)
  {
    var name := Name(p);
    var i := SuffixDot(name);
    if i == -1 then "" else name[i..]
  }

  /** `PurePath.stem`: the name without its suffix. */
  function Stem(p: string): (r: string)
    ensures r + Suffix(p) == Name(p)
    ensures forall i :: 0 <= i < |r| ==> r[i] != '/'
  {
    var name := Name(p);
    var i := SuffixDot(name);
    if i == -1 then name else name[..i]
  }

  /** `str(PurePath.parent)`: everything before the last `/`, `/` for the root, `.` for none. */
  function Parent(p: string): (r: string)
    ensures |r| > 0
  {
    var k := LastIndexOf(p, '/');
    if k == -1 then "." else if k == 0 then "/" else p[..k]
  }

  /** `PurePath.with_name(n)`: the same parent, another final component. */
  function WithName(p: string, n: string): string
  {
    p[..LastIndexOf(p, '/') + 1] + n
  }

  /** `with_name(n)` keeps the parent and, for a name without `/`, has name `n`. */
  lemma WithNameParts(p: string, n: string)
    requires |n| > 0 && forall i :: 0 <= i < |n| ==> n[i] != '/'
    ensures Name(WithName(p, n)) == n
    ensures Parent(WithName(p, n)) == Parent(p)
  {
    var k := LastIndexOf(p, '/');
    var r := WithName(p, n);
    assert LastIndexOf(r, '/') == k by {
      WithNameLastSlash(p, n);
    }
    assert Name(r) == n by {
      assert r[k + 1..] == n;
    }
    WithNameKeepsParent(p, n);
  }

  /** `with_name` leaves the parent alone: the root stays `/`, a bare name keeps `.`. */
  lemma WithNameKeepsParent(p: string, n: string)
    requires forall i :: 0 <= i < |n| ==> n[i] != '/'
    ensures Parent(WithName(p, n)) == Parent(p)
  {
    var k := LastIndexOf(p, '/');
    var r := WithName(p, n);
    assert LastIndexOf(r, '/') == k by {
      WithNameLastSlash(p, n);
    }
    if k >= 1 {
      assert r[..k] == p[..k];
    }
  }

  /** Replacing the name by one without `/` keeps the last `/` where it was. */
  lemma WithNameLastSlash(p: string, n: string)
    requires forall i :: 0 <= i < |n| ==> n[i] != '/'
    ensures LastIndexOf(WithName(p, n), '/') == LastIndexOf(p, '/')
  {
    var k := LastIndexOf(p, '/');
    var q := p[..k + 1];
    assert LastIndexOf(n, '/') == -1;
    LastIndexOfAppend(q, n, '/');
    if k >= 0 {
      LastIndexOfAt(q, '/', k);
    }
  }

  /** A name without `/` appended to a non-empty directory after a `/` is that path's name, and the directory its parent. */
  lemma ChildParts(dir: string, n: string)
    requires |dir| > 0
    requires forall i :: 0 <= i < |n| ==> n[i] != '/'
    ensures Name(dir + "/" + n) == n
    ensures Parent(dir + "/" + n) == dir
  {
    var p := dir + "/" + n;
    var tail := "/" + n;
    assert p == dir + tail;
    assert tail[0] == '/';
    forall i | 0 < i < |tail| ensures tail[i] != '/' {
      assert tail[i] == n[i - 1];
    }
    assert LastIndexOf(tail, '/') == 0;
    LastIndexOfAppend(dir, tail, '/');
    assert p[|dir| + 1..] == n;
    assert p[..|dir|] == dir;
  }

  /** `PurePath / n` for a directory path that is not `.`. */
  function JoinPath(dir: string, n: string): string
  {
    if dir != [] && dir[|dir| - 1] == '/' then dir + n else dir + "/" + n
  }

  /**
   * A name without `/` joined to a non-empty directory is the new path's
   * name, and a directory that does not end in `/` is its parent.
   */
  lemma JoinPathParts(dir: string, n: string)
    requires dir != [] && forall i :: 0 <= i < |n| ==> n[i] != '/'
    ensures Name(JoinPath(dir, n)) == n
    ensures dir[|dir| - 1] != '/' ==> Parent(JoinPath(dir, n)) == dir
  {
    if dir[|dir| - 1] == '/' {
      TrailingSlashChild(dir, n);
    } else {
      ChildParts(dir, n);
    }
  }

  /** A name without `/` after a directory ending in `/` is that path's name. */
  lemma TrailingSlashChild(dir: string, n: string)
    requires dir != [] && dir[|dir| - 1] == '/'
    requires forall i :: 0 <= i < |n| ==> n[i] != '/'
    ensures Name(dir + n) == n
  {
    LastIndexOfAt(dir, '/', |dir| - 1);
    assert LastIndexOf(n, '/') == -1;
    LastIndexOfAppend(dir, n, '/');
    assert (dir + n)[|dir|..] == n;
  }

  /** A file extension in pathlib's sense: a dot and at least one more character, no other dot or slash. */
  predicate IsExtension(ext: string)
  {
    |ext| >= 2 && ext[0] == '.' && forall i :: 1 <= i < |ext| ==> ext[i] != '.' && ext[i] != '/'
  }

  /** A non-empty suffix is an extension, and then the stem is not empty. */
  lemma SuffixIsExtension(p: string)
    requires Suffix(p) != ""
    ensures IsExtension(Suffix(p))
    ensures |Stem(p)| > 0
  {
    var name := Name(p);
    var i := SuffixDot(name);
    assert name[i..] == Suffix(p);
    forall k | 1 <= k < |Suffix(p)| ensures Suffix(p)[k] != '.' && Suffix(p)[k] != '/' {
      assert Suffix(p)[k] == name[i + k];
    }
  }

  /**
   * A file name built as `stem + ext` has exactly that stem and that suffix,
   * provided the stem has no `/` and does not start with a dot.
   */
  lemma {:induction false} NameParts(dir: string, stem: string, ext: string)
    requires IsExtension(ext)
    requires |stem| > 0 && stem[0] != '.'
    requires forall i :: 0 <= i < |stem| ==> stem[i] != '/'
    ensures Name(dir + "/" + stem + ext) == stem + ext
    ensures Suffix(dir + "/" + stem + ext) == ext
    ensures Stem(dir + "/" + stem + ext) == stem
    ensures |dir| > 0 ==> Parent(dir + "/" + stem + ext) == dir
  {
    var p := dir + "/" + stem + ext;
    var tail := "/" + stem + ext;
    assert p == dir + tail;
    forall i | 0 < i < |tail| ensures tail[i] != '/' {
      if i <= |stem| { assert tail[i] == stem[i - 1]; } else { assert tail[i] == ext[i - 1 - |stem|]; }
    }
    assert tail[0] == '/';
    assert LastIndexOf(tail, '/') == 0;
    var name := stem + ext;
    assert Name(p) == name by {
      assert LastIndexOf(p, '/') == |dir| by {
        LastIndexOfAppend(dir, tail, '/');
      }
      assert p[|dir| + 1..] == name;
    }
    assert LastIndexOf(name, '.') == |stem| by {
      LastIndexOfAppend(stem, ext, '.');
      assert LastIndexOf(ext, '.') == 0 by {
        assert forall i :: 0 < i < |ext| ==> ext[i] != '.';
      }
    }
    assert SuffixDot(name) == |stem|;
    assert name[|stem|..] == ext;
    assert name[..|stem|] == stem;
  }
}
