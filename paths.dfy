/**
 * POSIX path handling as `pathlib.PurePosixPath` (Python 3.12) and
 * `posixpath.join` perform it: the parts of a path, its root, its final
 * component (`name`), the `suffix` and `stem` of that component,
 * `with_suffix`, and the string a path prints as.
 */
module Paths {
  import opened Wrappers

  const Sep: char := '/'

  /** The pieces of `s` between separators, as `s.split('/')` returns them. */
  function Split(s: string): (r: seq<string>)
    ensures |r| >= 1
    ensures forall i :: 0 <= i < |r| ==> Sep !in r[i]
    decreases |s|
  {
    if s == [] then [[]]
    else
      var rest := Split(s[1..]);
      if s[0] == Sep then [[]] + rest
      else [[s[0]] + rest[0]] + rest[1..]
  }

  /** `'/'.join(parts)` */
  function Join(parts: seq<string>): string
    decreases |parts|
  {
    if |parts| == 0 then []
    else if |parts| == 1 then parts[0]
    else parts[0] + [Sep] + Join(parts[1..])
  }

  /** A part pathlib keeps: non-empty, not `.`, without a separator. */
  predicate IsComponent(c: string) {
    c != [] && c != "." && Sep !in c
  }

  /** Drops the empty and `.` pieces, as pathlib does when it parses a path. */
  function Keep(segs: seq<string>): (r: seq<string>)
    ensures forall c :: c in r ==> c in segs && c != [] && c != "."
    decreases |segs|
  {
    if segs == [] then []
    else (if segs[0] == [] || segs[0] == "." then [] else [segs[0]]) + Keep(segs[1..])
  }

  /** The root of a path, as `posixpath.splitroot` finds it: exactly two leading separators are kept. */
  function Root(p: string): (r: string)
    ensures r == [] || r == [Sep] || r == [Sep, Sep]
  {
    if |p| >= 2 && p[0] == Sep && p[1] == Sep && (|p| == 2 || p[2] != Sep) then [Sep, Sep]
    else if |p| >= 1 && p[0] == Sep then [Sep]
    else []
  }

  predicate IsRoot(root: string) {
    root == [] || root == [Sep] || root == [Sep, Sep]
  }

  /** The parts of a path after its root (pathlib's `_tail`). */
  function Parts(p: string): (r: seq<string>)
    ensures forall i :: 0 <= i < |r| ==> IsComponent(r[i])
  {
    var r := Keep(Split(p));
    assert forall i :: 0 <= i < |r| ==> r[i] in Split(p);
    r
  }

  /** `str(path)` for a path with the given root and parts; an empty path prints as `.`. */
  function Format(root: string, parts: seq<string>): string {
    if root == [] && parts == [] then "." else root + Join(parts)
  }

  /** `PurePath.name`: the final part, or the empty string when there is none. */
  function Name(p: string): (r: string)
    ensures r == [] || IsComponent(r)
  {
    var ps := Parts(p);
    if ps == [] then [] else ps[|ps| - 1]
  }

  /** The index of the last occurrence of `c` in `s` (`str.rfind`), or -1. */
  function LastIndexOf(s: string, c: char): (i: int)
    ensures -1 <= i < |s|
    ensures i >= 0 ==> s[i] == c
    ensures forall j :: i < j < |s| ==> s[j] != c
    decreases |s|
  {
    if s == [] then -1
    else if s[|s| - 1] == c then |s| - 1
    else LastIndexOf(s[..|s| - 1], c)
  }

  /**
   * `PurePath.suffix` of a final component `n`: from its last dot to the end,
   * provided that dot is neither the first nor the last character.
   */
  function SuffixOfName(n: string): (r: string)
    ensures r != [] ==> 2 <= |r| < |n| && r[0] == '.' && '.' !in r[1..] && r == n[|n| - |r|..]
  {
    var i := LastIndexOf(n, '.');
    if 0 < i < |n| - 1 then n[i..] else []
  }

  /** `PurePath.stem` of a final component: the component without its suffix. */
  function StemOfName(n: string): (r: string)
    ensures n != [] ==> r != []
    ensures r + SuffixOfName(n) == n
  {
    n[..|n| - |SuffixOfName(n)|]
  }

  function Suffix(p: string): string {
    SuffixOfName(Name(p))
  }

  function Stem(p: string): string {
    StemOfName(Name(p))
  }

  datatype PathError = InvalidSuffix | EmptyName

  predicate IsValidSuffix(suffix: string) {
    Sep !in suffix && (suffix == [] || suffix[0] == '.') && suffix != "."
  }

  /**
   * `PurePath.with_suffix(suffix)`: the final part with its suffix replaced
   * (or `suffix` appended when it has none), printed as a path string.
   * Raises ValueError for an invalid suffix or a path without a name.
   */
  function WithSuffix(p: string, suffix: string): Result<string, PathError> {
    if !IsValidSuffix(suffix) then Failure(InvalidSuffix)
    else if Name(p) == [] then Failure(EmptyName)
    else
      var ps := Parts(p);
      Success(Format(Root(p), ps[..|ps| - 1] + [Stem(p) + suffix]))
  }

  /**
   * `with_suffix` raises exactly for an invalid suffix or a path without a
   * final part: one whose every `/`-separated piece is empty or `.`.
   */
  lemma WithSuffixFails(p: string, suffix: string)
    ensures WithSuffix(p, suffix).Failure? <==>
      !IsValidSuffix(suffix) || forall c :: c in Split(p) ==> c == [] || c == "."
  {
    KeepNothing(Split(p));
  }

  /** Parsing keeps no part exactly when every piece is empty or `.`. */
  lemma {:induction false} KeepNothing(segs: seq<string>)
    ensures Keep(segs) == [] <==> forall c :: c in segs ==> c == [] || c == "."
    decreases |segs|
  {
    if segs != [] {
      KeepNothing(segs[1..]);
      assert forall c :: c in segs <==> c == segs[0] || c in segs[1..];
      if segs[0] == [] || segs[0] == "." {
        assert Keep(segs) == [] + Keep(segs[1..]);
      } else {
        assert Keep(segs)[0] == segs[0] && segs[0] in segs;
      }
    }
  }

  /** `os.path.join(a, b)` on POSIX. */
  function JoinPath(a: string, b: string): string {
    if |b| > 0 && b[0] == Sep then b
    else if a == [] || a[|a| - 1] == Sep then a + b
    else a + [Sep] + b
  }

  // ---------------------------------------------------------------------------
  // Splitting and joining

  lemma {:induction false} SplitNoSep(a: string)
    requires Sep !in a
    ensures Split(a) == [a]
    decreases |a|
  {
    if a != [] {
      SplitNoSep(a[1..]);
      assert [a[0]] + a[1..] == a;
    }
  }

  /** Splitting at a separator splits the two sides independently. */
  lemma {:induction false} SplitConcat(x: string, y: string)
    ensures Split(x + [Sep] + y) == Split(x) + Split(y)
    decreases |x|
  {
    if x == [] {
      assert x + [Sep] + y == [Sep] + y;
      SplitAfterSep(y);
    } else {
      var t := x[1..];
      SplitConcat(t, y);
      assert x == [x[0]] + t;
      assert x + [Sep] + y == [x[0]] + (t + [Sep] + y);
      SplitCons(x[0], t + [Sep] + y);
      SplitCons(x[0], t);
      PieceAppend(x[0], Split(t), Split(y));
    }
  }

  /** Opening or extending a first piece commutes with appending more pieces. */
  lemma PieceAppend(c: char, rx: seq<string>, ry: seq<string>)
    requires |rx| >= 1
    ensures ([[]] + rx) + ry == [[]] + (rx + ry)
    ensures ([[c] + rx[0]] + rx[1..]) + ry == [[c] + (rx + ry)[0]] + (rx + ry)[1..]
  {
    assert (rx + ry)[1..] == rx[1..] + ry;
  }

  /** Splitting after one more leading character either opens a new piece or extends the first one. */
  lemma SplitCons(c: char, t: string)
    ensures Split([c] + t) == if c == Sep then [[]] + Split(t) else [[c] + Split(t)[0]] + Split(t)[1..]
  {
    assert ([c] + t)[1..] == t;
  }

  /** Splitting a joined list of separator-free parts gives the parts back. */
  lemma {:induction false} SplitJoin(parts: seq<string>)
    requires |parts| >= 1
    requires forall i :: 0 <= i < |parts| ==> Sep !in parts[i]
    ensures Split(Join(parts)) == parts
    decreases |parts|
  {
    if |parts| == 1 {
      SplitNoSep(parts[0]);
    } else {
      SplitJoin(parts[1..]);
      SplitConcat(parts[0], Join(parts[1..]));
      SplitNoSep(parts[0]);
    }
  }

  lemma {:induction false} KeepConcat(xs: seq<string>, ys: seq<string>)
    ensures Keep(xs + ys) == Keep(xs) + Keep(ys)
    decreases |xs|
  {
    if xs != [] {
      assert (xs + ys)[0] == xs[0] && (xs + ys)[1..] == xs[1..] + ys;
      KeepConcat(xs[1..], ys);
    } else {
      assert xs + ys == ys;
    }
  }

  lemma {:induction false} KeepComponents(xs: seq<string>)
    requires forall i :: 0 <= i < |xs| ==> IsComponent(xs[i])
    ensures Keep(xs) == xs
    decreases |xs|
  {
    if xs != [] {
      KeepComponents(xs[1..]);
    }
  }

  lemma JoinStart(parts: seq<string>)
    requires |parts| >= 1 && parts[0] != []
    ensures |Join(parts)| >= 1 && Join(parts)[0] == parts[0][0]
  {
  }

  // ---------------------------------------------------------------------------
  // Parsing what Format prints

  /** A path printed from a root and components parses back into that root and those components. */
  lemma FormatRoundTrip(root: string, parts: seq<string>)
    requires IsRoot(root)
    requires forall i :: 0 <= i < |parts| ==> IsComponent(parts[i])
    ensures Root(Format(root, parts)) == root
    ensures Parts(Format(root, parts)) == parts
  {
    if parts == [] {
      BareRootRoundTrip(root);
    } else if root == [] {
      RelativeRoundTrip(parts);
    } else {
      AnchoredRoundTrip(root, parts);
    }
  }

  lemma BareRootRoundTrip(root: string)
    requires IsRoot(root)
    ensures Root(Format(root, [])) == root
    ensures Parts(Format(root, [])) == []
  {
    if root == [] {
      SplitNoSep(".");
    } else if root == [Sep] {
      assert Format(root, []) == [Sep] + [];
      SlashParts([]);
    } else {
      assert Format(root, []) == [Sep, Sep] + [];
      DoubleSlashParts([]);
    }
  }

  lemma RelativeRoundTrip(parts: seq<string>)
    requires parts != []
    requires forall i :: 0 <= i < |parts| ==> IsComponent(parts[i])
    ensures Root(Format([], parts)) == []
    ensures Parts(Format([], parts)) == parts
  {
    assert Format([], parts) == Join(parts);
    JoinStart(parts);
    SplitJoin(parts);
    KeepComponents(parts);
  }

  lemma AnchoredRoundTrip(root: string, parts: seq<string>)
    requires root == [Sep] || root == [Sep, Sep]
    requires parts != []
    requires forall i :: 0 <= i < |parts| ==> IsComponent(parts[i])
    ensures Root(Format(root, parts)) == root
    ensures Parts(Format(root, parts)) == parts
  {
    var j := Join(parts);
    assert Format(root, parts) == root + j;
    JoinStart(parts);
    SplitJoin(parts);
    KeepComponents(parts);
    AnchoredRoot(root, j);
    if root == [Sep] {
      SlashParts(j);
    } else {
      DoubleSlashParts(j);
    }
  }

  lemma AnchoredRoot(root: string, j: string)
    requires root == [Sep] || root == [Sep, Sep]
    requires j != [] && j[0] != Sep
    ensures Root(root + j) == root
  {
    assert (root + j)[|root|] == j[0];
  }

  lemma DoubleSlashParts(y: string)
    ensures Parts([Sep, Sep] + y) == Keep(Split(y))
  {
    assert [Sep, Sep] + y == [Sep] + ([Sep] + y);
    SlashParts([Sep] + y);
    SplitAfterSep(y);
    KeepDropsEmpty(Split(y));
  }

  lemma SlashParts(y: string)
    ensures Parts([Sep] + y) == Keep(Split(y))
  {
    SplitAfterSep(y);
    KeepDropsEmpty(Split(y));
  }

  lemma SplitAfterSep(y: string)
    ensures Split([Sep] + y) == [[]] + Split(y)
  {
    assert ([Sep] + y)[1..] == y;
  }

  lemma KeepDropsEmpty(xs: seq<string>)
    ensures Keep([[]] + xs) == Keep(xs)
  {
    assert ([[]] + xs)[1..] == xs;
  }

  // ---------------------------------------------------------------------------
  // with_suffix

  /** The final part `with_suffix` builds is itself a part pathlib keeps. */
  lemma NewNameIsComponent(p: string, suffix: string)
    requires IsValidSuffix(suffix) && suffix != [] && Name(p) != []
    ensures IsComponent(Stem(p) + suffix)
  {
    var n := Name(p);
    var stem := StemOfName(n);
    assert stem == n[..|stem|];
    NoSepInPrefix(n, |stem|);
    NoSepInConcat(stem, suffix);
  }

  lemma NoSepInPrefix(s: string, k: nat)
    requires Sep !in s && k <= |s|
    ensures Sep !in s[..k]
  {
    assert forall i :: 0 <= i < k ==> s[..k][i] == s[i];
  }

  lemma NoSepInConcat(a: string, b: string)
    requires Sep !in a && Sep !in b
    ensures Sep !in a + b
  {
    assert forall i :: 0 <= i < |a + b| ==> (a + b)[i] in a || (a + b)[i] in b;
  }

  /**
   * The path `with_suffix` returns has the same root and the same parent
   * parts; only its final part changes, to the old stem followed by `suffix`.
   * (An empty suffix can leave a stem of `.`, which pathlib drops when the
   * result is parsed again, so that case is excluded.)
   */
  lemma WithSuffixSameDirectory(p: string, suffix: string)
    requires suffix != [] && WithSuffix(p, suffix).Success?
    ensures var q := WithSuffix(p, suffix).value;
      && Root(q) == Root(p)
      && |Parts(q)| == |Parts(p)|
      && Parts(q)[..|Parts(q)| - 1] == Parts(p)[..|Parts(p)| - 1]
      && Name(q) == Stem(p) + suffix
  {
    var ps := Parts(p);
    var newName := Stem(p) + suffix;
    var qs := ps[..|ps| - 1] + [newName];
    var q := WithSuffix(p, suffix).value;
    assert q == Format(Root(p), qs);
    NewNameIsComponent(p, suffix);
    ReplaceLastComponents(ps, newName);
    FormatRoundTrip(Root(p), qs);
    LastPartIsName(q, qs);
  }

  lemma ReplaceLastComponents(ps: seq<string>, c: string)
    requires |ps| >= 1 && IsComponent(c)
    requires forall i :: 0 <= i < |ps| ==> IsComponent(ps[i])
    ensures var qs := ps[..|ps| - 1] + [c];
      && |qs| == |ps|
      && qs[..|qs| - 1] == ps[..|ps| - 1]
      && qs[|qs| - 1] == c
      && forall i :: 0 <= i < |qs| ==> IsComponent(qs[i])
  {
    var qs := ps[..|ps| - 1] + [c];
    assert qs[..|qs| - 1] == ps[..|ps| - 1];
  }

  lemma LastPartIsName(q: string, qs: seq<string>)
    requires Parts(q) == qs && qs != []
    ensures Name(q) == qs[|qs| - 1]
  {
  }

  /**
   * Appending a one-dot suffix to a non-empty stem gives a name whose suffix
   * is exactly that one.
   */
  lemma SuffixOfStemPlus(stem: string, suffix: string)
    requires stem != []
    requires |suffix| >= 2 && suffix[0] == '.' && '.' !in suffix[1..]
    ensures SuffixOfName(stem + suffix) == suffix
  {
    var n := stem + suffix;
    var k := |stem|;
    assert n[k] == '.';
    forall j | k < j < |n| ensures n[j] != '.' {
      assert n[j] == suffix[1..][j - k - 1];
    }
    var i := LastIndexOf(n, '.');
    assert i == k;
    assert n[k..] == suffix;
  }

  /** A single component, without a root, is a path whose only part is itself. */
  lemma BareName(n: string)
    requires IsComponent(n)
    ensures Root(n) == [] && Parts(n) == [n] && Name(n) == n
  {
    SplitNoSep(n);
    KeepComponents([n]);
    assert n[0] in n;
  }

  /** `with_suffix` on a bare name `stem.ext` gives the bare name `stem` + `suffix`. */
  lemma BareNameWithSuffix(stem: string, ext: string, suffix: string)
    requires IsComponent(stem) && '.' !in stem
    requires |ext| >= 2 && ext[0] == '.' && '.' !in ext[1..] && Sep !in ext
    requires IsValidSuffix(suffix) && suffix != []
    ensures WithSuffix(stem + ext, suffix) == Success(stem + suffix)
  {
    var n := stem + ext;
    assert Sep !in n by {
      assert forall k :: 0 <= k < |n| ==> n[k] in stem || n[k] in ext;
    }
    assert n[0] == stem[0] && stem[0] in stem;
    assert IsComponent(n) by {
      assert n != ".";
    }
    BareName(n);
    SuffixOfStemPlus(stem, ext);
    assert Stem(n) == stem;
    assert Parts(n)[..0] + [stem + suffix] == [stem + suffix];
    assert Format([], [stem + suffix]) == stem + suffix;
  }

  // ---------------------------------------------------------------------------
  // os.path.join

  /** Joining a directory and a plain file name gives a path whose name is that file name. */
  lemma JoinedName(a: string, f: string)
    requires IsComponent(f)
    ensures Name(JoinPath(a, f)) == f
  {
    SplitNoSep(f);
    KeepComponents([f]);
    var q := JoinPath(a, f);
    if a == [] {
      assert q == f;
    } else {
      var d := if a[|a| - 1] == Sep then a[..|a| - 1] else a;
      assert q == d + [Sep] + f;
      SplitConcat(d, f);
      KeepConcat(Split(d), [f]);
    }
  }
}
