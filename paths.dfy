/**
 * POSIX path arithmetic as used by the file handler (Python's `os.path`):
 * `normpath`, `relpath`, `join`, `dirname`, `basename`, `splitext` and
 * `str.endswith`.  A path is the sequence of its components, read from the
 * filesystem root; every path in the model is absolute.
 */
module Paths {

  type Path = seq<string>

  const CurDir: string := "."
  const ParDir: string := ".."

  /** A component that names an entry: not empty, not `.` and not `..`. */
  predicate Plain(c: string) {
    c != "" && c != CurDir && c != ParDir
  }

  /** A path made of plain components only, as `normpath` returns it. */
  predicate Normal(p: Path) {
    forall i :: 0 <= i < |p| ==> Plain(p[i])
  }

  /** `k` copies of `..`. */
  function Dots(k: nat): (r: Path)
    ensures |r| == k
    ensures forall i :: 0 <= i < k ==> r[i] == ParDir
  {
    seq(k, _ => ParDir)
  }

  /** `os.path.normpath` on an absolute path: empty and `.` components are
      dropped and `..` removes the component before it (`..` at the root
      stays at the root). */
  function Normpath(p: Path): (r: Path)
    ensures Normal(r)
    ensures |r| <= |p|
  {
    if p == [] then []
    else
      var q := Normpath(p[..|p| - 1]);
      var c := p[|p| - 1];
      if c == "" || c == CurDir then q
      else if c == ParDir then (if q == [] then [] else q[..|q| - 1])
      else q + [c]
  }

  /** `os.path.basename`: the last component (empty for the root). */
  function Basename(p: Path): string {
    if p == [] then "" else p[|p| - 1]
  }

  /** `os.path.dirname`: everything but the last component. */
  function Dirname(p: Path): (r: Path)
    ensures p != [] ==> p == r + [Basename(p)]
  {
    if p == [] then [] else p[..|p| - 1]
  }

  /** Length of the longest common prefix of two paths. */
  function CommonPrefixLength(a: Path, b: Path): (n: nat)
    ensures n <= |a| && n <= |b|
    ensures a[..n] == b[..n]
    ensures n < |a| && n < |b| ==> a[n] != b[n]
  {
    if a == [] || b == [] || a[0] != b[0] then 0
    else 1 + CommonPrefixLength(a[1..], b[1..])
  }

  /** `os.path.relpath(path, start)`: both are normalised, then one `..` for
      every component of `start` below the common prefix, followed by the rest
      of `path`; `.` when the two are the same directory. */
  function Relpath(path: Path, start: Path): (r: Path)
    ensures r != []
  {
    var p := Normpath(path);
    var s := Normpath(start);
    var i := CommonPrefixLength(p, s);
    var rel := Dots(|s| - i) + p[i..];
    if rel == [] then [CurDir] else rel
  }

  /** `"/".join(p)`: the text of a relative path, as printed. */
  function Render(p: Path): string {
    if p == [] then ""
    else if |p| == 1 then p[0]
    else Render(p[..|p| - 1]) + "/" + p[|p| - 1]
  }

  /** The last component of `p` is `.` or `..`. */
  predicate EndsInDots(p: Path) {
    p != [] && (p[|p| - 1] == CurDir || p[|p| - 1] == ParDir)
  }

  /** `str.endswith`. */
  predicate EndsWith(s: string, suffix: string) {
    |suffix| <= |s| && s[|s| - |suffix|..] == suffix
  }

  /** Index of the last occurrence of `c` in `s`, or -1. */
  function LastIndexOf(s: string, c: char): (r: int)
    ensures -1 <= r < |s|
    ensures r >= 0 ==> s[r] == c
    ensures forall j :: r < j < |s| ==> s[j] != c
  {
    if s == [] then -1
    else if s[|s| - 1] == c then |s| - 1
    else LastIndexOf(s[..|s| - 1], c)
  }

  /** `os.path.splitext` on a single component: the split is at the last dot,
      unless every character before that dot is itself a dot (`.bashrc`,
      `..txt`), in which case the extension is empty. */
  function Splitext(name: string): (r: (string, string))
    ensures r.0 + r.1 == name
    ensures r.1 == "" || (r.1[0] == '.' && '.' !in r.1[1..])
    ensures r.1 != "" ==> exists j :: 0 <= j < |r.0| && r.0[j] != '.'
  {
    var dot := LastIndexOf(name, '.');
    if dot > 0 && exists j :: 0 <= j < dot && name[j] != '.' then
      (name[..dot], name[dot..])
    else
      (name, "")
  }

  /** `os.path.splitext(name)[0]`. */
  function Stem(name: string): string {
    Splitext(name).0
  }

  // ---------------------------------------------------------------------
  // Lemmas
  // ---------------------------------------------------------------------

  /** `normpath` leaves a normalised path alone. */
  lemma {:induction false} NormpathOfNormal(p: Path)
    requires Normal(p)
    ensures Normpath(p) == p
  {
    if p != [] {
      NormpathOfNormal(p[..|p| - 1]);
      assert p == p[..|p| - 1] + [p[|p| - 1]];
    }
  }

  /** Empty and `.` components are dropped. */
  lemma NormpathDropsCurrent(p: Path)
    ensures Normpath(p + [""]) == Normpath(p)
    ensures Normpath(p + [CurDir]) == Normpath(p)
  {
    assert (p + [""])[..|p|] == p;
    assert (p + [CurDir])[..|p|] == p;
  }

  /** `..` at the root stays at the root. */
  lemma {:induction false} NormpathDotsAtRoot(k: nat)
    ensures Normpath(Dots(k)) == []
  {
    if k > 0 {
      NormpathDotsAtRoot(k - 1);
      assert Dots(k)[..k - 1] == Dots(k - 1);
    }
  }

  /** Normalising a prefix first does not change the result. */
  lemma {:induction false} NormpathAppend(p: Path, s: Path)
    ensures Normpath(p + s) == Normpath(Normpath(p) + s)
  {
    if s == [] {
      assert p + s == p;
      assert Normpath(p) + s == Normpath(p);
      NormpathOfNormal(Normpath(p));
    } else {
      var s' := s[..|s| - 1];
      NormpathAppend(p, s');
      assert (p + s)[..|p + s| - 1] == p + s';
      assert (Normpath(p) + s)[..|Normpath(p) + s| - 1] == Normpath(p) + s';
    }
  }

  /** Plain components are kept as they are. */
  lemma {:induction false} NormpathAppendNormal(p: Path, s: Path)
    requires Normal(s)
    ensures Normpath(p + s) == Normpath(p) + s
  {
    if s != [] {
      var s' := s[..|s| - 1];
      var c := s[|s| - 1];
      NormpathAppendNormal(p, s');
      assert (p + s)[..|p + s| - 1] == p + s';
      assert (p + s)[|p + s| - 1] == c && Plain(c);
      assert Normpath(p + s) == Normpath(p + s') + [c];
      assert s == s' + [c];
      assert Normpath(p) + s == (Normpath(p) + s') + [c];
    } else {
      assert p + s == p && Normpath(p) + s == Normpath(p);
    }
  }

  /** Each `..` climbs one level. */
  lemma {:induction false} NormpathClimb(p: Path, k: nat)
    requires Normal(p) && k <= |p|
    ensures Normpath(p + Dots(k)) == p[..|p| - k]
  {
    if k == 0 {
      assert p + Dots(k) == p;
      NormpathOfNormal(p);
    } else {
      NormpathClimb(p, k - 1);
      assert (p + Dots(k))[..|p + Dots(k)| - 1] == p + Dots(k - 1);
    }
  }

  /** Climbing from `s` to the common prefix with `p` and descending along `p`
      arrives at `p`. */
  lemma {:induction false} ClimbThenDescend(s: Path, p: Path, i: nat)
    requires Normal(s) && Normal(p)
    requires i <= |s| && i <= |p| && s[..i] == p[..i]
    ensures Normpath(s + (Dots(|s| - i) + p[i..])) == p
  {
    var k := |s| - i;
    assert s + (Dots(k) + p[i..]) == (s + Dots(k)) + p[i..];
    NormpathAppend(s + Dots(k), p[i..]);
    NormpathClimb(s, k);
    assert Normal(p[i..]);
    NormpathAppendNormal(s[..i], p[i..]);
    NormpathOfNormal(s[..i]);
    assert s[..i] + p[i..] == p[..i] + p[i..] == p;
  }

  /** Joining `relpath(path, start)` back onto `start` and normalising gives
      `path` normalised: `relpath` loses nothing. */
  lemma RelpathJoinRoundTrip(path: Path, start: Path)
    ensures Normpath(start + Relpath(path, start)) == Normpath(path)
  {
    var p := Normpath(path);
    var s := Normpath(start);
    var i := CommonPrefixLength(p, s);
    var rel := Dots(|s| - i) + p[i..];
    NormpathAppend(start, Relpath(path, start));
    if rel == [] {
      NormpathOfNormal(s);
      assert p == p[..i] == s[..i] == s;
      assert Normpath(s + [CurDir]) == Normpath(s);
    } else {
      ClimbThenDescend(s, p, i);
    }
  }

  /** Below the root, `relpath` is the part of the path under the root. */
  lemma RelpathBelow(root: Path, d: Path)
    requires Normal(root) && Normal(d) && d != []
    ensures Relpath(root + d, root) == d
  {
    assert Normal(root + d);
    NormpathOfNormal(root + d);
    NormpathOfNormal(root);
    assert CommonPrefixLength(root + d, root) == |root|;
    assert (root + d)[|root|..] == d;
  }

  /** The parent of a path, normalised, is the normalised path's parent when
      the last component is plain. */
  lemma DirnameOfNormpath(p: Path, c: string)
    requires Plain(c)
    ensures Normpath(p + [c]) == Normpath(p) + [c]
    ensures Dirname(Normpath(p + [c])) == Normpath(p)
  {
    NormpathAppendNormal(p, [c]);
  }

  /** Appending an extension that starts with its only dot to a stem that has a
      character other than a dot splits back into the two. */
  lemma SplitextOfAppend(s: string, e: string)
    requires e != [] && e[0] == '.' && '.' !in e[1..]
    requires exists j :: 0 <= j < |s| && s[j] != '.'
    ensures Splitext(s + e) == (s, e)
  {
    var name := s + e;
    var dot := LastIndexOf(name, '.');
    assert name[|s|] == '.';
    assert dot == |s|;
    var j :| 0 <= j < |s| && s[j] != '.';
    assert name[j] != '.';
    assert name[..dot] == s && name[dot..] == e;
  }

  /** A name is the concatenation of its stem and a suffix that is `.txt` when
      the name ends with `.txt` and does not consist of dots before it. */
  lemma StemOfTxt(name: string)
    requires EndsWith(name, ".txt")
    requires exists j :: 0 <= j < |name| - 4 && name[j] != '.'
    ensures Stem(name) + ".txt" == name
  {
    var s := name[..|name| - 4];
    assert name == s + ".txt";
    var j :| 0 <= j < |name| - 4 && name[j] != '.';
    assert s[j] != '.';
    SplitextOfAppend(s, ".txt");
  }

  /** Appending one component and normalising: a plain component is kept,
      any other one stays at the path or climbs to its parent. */
  lemma NormpathAppendOne(p: Path, c: string)
    ensures Plain(c) ==> Normpath(p + [c]) == Normpath(p) + [c]
    ensures !Plain(c) ==> Normpath(p + [c]) == Normpath(p) || Normpath(p + [c]) == Dirname(Normpath(p))
  {
    assert (p + [c])[..|p + [c]| - 1] == p;
  }

  /** A proper prefix of a path is a prefix of its parent. */
  lemma PrefixOfParent(o: Path, n: Path)
    ensures o <= n && o != n ==> o <= Dirname(n)
  {
  }

  /** Two paths with the same middle part are equal exactly when their
      heads and their last components are. */
  lemma SplitAroundMiddle(a1: Path, a2: Path, mid: Path, n1: string, n2: string)
    ensures a1 + mid + [n1] == a2 + mid + [n2] <==> a1 == a2 && n1 == n2
  {
    if a1 + mid + [n1] == a2 + mid + [n2] {
      var x := a1 + mid + [n1];
      assert |a1| == |a2|;
      assert a1 == x[..|a1|] && a2 == x[..|a2|];
      assert x[|x| - 1] == n1 && (a2 + mid + [n2])[|x| - 1] == n2;
    }
  }

  /** `relpath` of a path that is not the start or one of its ancestors:
      the climb to the common prefix, then a non-empty descent. */
  lemma {:induction false} RelpathOutside(p: Path, root: Path) returns (i: nat)
    requires !(Normpath(p) <= Normpath(root))
    ensures i < |Normpath(p)| && i <= |Normpath(root)|
    ensures Normpath(p)[..i] == Normpath(root)[..i]
    ensures Relpath(p, root) == Dots(|Normpath(root)| - i) + Normpath(p)[i..]
  {
    var P := Normpath(p);
    var S := Normpath(root);
    i := CommonPrefixLength(P, S);
    FullCommonPrefix(P, S);
  }

  /** A path whose common prefix with `S` is the whole path is a prefix of
      `S`. */
  lemma FullCommonPrefix(P: Path, S: Path)
    ensures CommonPrefixLength(P, S) == |P| ==> P <= S
  {
    var n := CommonPrefixLength(P, S);
    if n == |P| {
      assert P == P[..n];
    }
  }

  /** The directory part of `relpath(p, root)`: the same climb, then the
      descent to `p`'s parent. */
  lemma {:induction false} RelpathParent(p: Path, root: Path) returns (i: nat)
    requires !(Normpath(p) <= Normpath(root))
    ensures Normal(Dirname(Normpath(p)))
    ensures i <= |Dirname(Normpath(p))| && i <= |Normpath(root)|
    ensures Dirname(Normpath(p))[..i] == Normpath(root)[..i]
    ensures Dirname(Relpath(p, root)) == Dots(|Normpath(root)| - i) + Dirname(Normpath(p))[i..]
  {
    i := RelpathOutside(p, root);
    DirnameOfClimb(|Normpath(root)| - i, Normpath(p), i);
  }

  /** The parent of a climb followed by a non-empty descent along `P` is the
      climb followed by the descent along `P`'s parent. */
  lemma DirnameOfClimb(k: nat, P: Path, i: nat)
    requires Normal(P) && i < |P|
    ensures Normal(Dirname(P)) && Dirname(P)[..i] == P[..i]
    ensures Dirname(Dots(k) + P[i..]) == Dots(k) + Dirname(P)[i..]
  {
    var D := Dirname(P);
    assert P[i..] == D[i..] + [P[|P| - 1]];
    assert (Dots(k) + D[i..]) + [P[|P| - 1]] == Dots(k) + P[i..];
    assert ((Dots(k) + D[i..]) + [P[|P| - 1]])[..k + |D[i..]|] == Dots(k) + D[i..];
  }

  /** Climbing out of `parent/a` and back into it lands where it started. */
  lemma ClimbBackIn(parent: Path, a: string, y: Path, name: string)
    requires Normal(parent) && Plain(a) && Normal(y) && Plain(name)
    ensures Normpath(parent + [a] + ([ParDir, a] + y) + [name]) == parent + [a] + y + [name]
  {
    var A, down := ClimbShape(parent, a, y, name);
    ClimbOne(A, down);
  }

  /** The two halves of a climb out of `parent/a` and back: `parent/a/..`
      and the plain descent `a/y/name`. */
  lemma ClimbShape(parent: Path, a: string, y: Path, name: string) returns (A: Path, down: Path)
    requires Normal(parent) && Plain(a) && Normal(y) && Plain(name)
    ensures Normal(A) && A != [] && Normal(down)
    ensures parent + [a] + ([ParDir, a] + y) + [name] == (A + Dots(1)) + down
    ensures A[..|A| - 1] + down == parent + [a] + y + [name]
  {
    A := parent + [a];
    down := [a] + y + [name];
    assert Normal(A) && Normal(down);
    assert Dots(1) == [ParDir];
    assert parent + [a] + ([ParDir, a] + y) + [name] == (A + [ParDir]) + down;
    assert A[..|A| - 1] == parent;
  }

  /** `..` followed by plain components: the last component of `A` is
      dropped and the rest kept. */
  lemma ClimbOne(A: Path, down: Path)
    requires Normal(A) && A != [] && Normal(down)
    ensures Normpath((A + Dots(1)) + down) == A[..|A| - 1] + down
  {
    NormpathClimb(A, 1);
    NormpathAppendNormal(A + Dots(1), down);
  }

  /** `relpath` ends in `.` or `..` exactly for the start itself (`.`) and
      its ancestors (`..`). */
  lemma {:induction false} RelpathEndsInDots(p: Path, root: Path)
    ensures EndsInDots(Relpath(p, root)) <==> Normpath(p) <= Normpath(root)
    ensures Basename(Relpath(p, root)) == CurDir <==> Normpath(p) == Normpath(root)
  {
    if Normpath(p) <= Normpath(root) {
      RelpathOfAncestor(p, root);
    } else {
      RelpathEndsPlain(p, root);
    }
  }

  /** `relpath` to the start is `.`, and to an ancestor of the start one
      `..` per level. */
  lemma {:induction false} RelpathOfAncestor(p: Path, root: Path)
    requires Normpath(p) <= Normpath(root)
    ensures Relpath(p, root) == if Normpath(p) == Normpath(root) then [CurDir] else Dots(|Normpath(root)| - |Normpath(p)|)
  {
    var P := Normpath(p);
    var S := Normpath(root);
    CommonPrefixOfPrefix(P, S);
    assert Dots(|S| - |P|) + P[|P|..] == Dots(|S| - |P|);
    if P != S {
      assert |P| < |S|;
    } else {
      assert Dots(0) == [];
    }
  }

  /** `relpath` of a path outside the start's ancestors ends in a plain
      component: the path's own last one. */
  lemma {:induction false} RelpathEndsPlain(p: Path, root: Path)
    requires !(Normpath(p) <= Normpath(root))
    ensures Plain(Basename(Relpath(p, root)))
  {
    var P := Normpath(p);
    var r := Relpath(p, root);
    var i := RelpathOutside(p, root);
    assert r[|r| - 1] == P[|P| - 1];
  }

  /** A prefix is its own common prefix with the longer path. */
  lemma CommonPrefixOfPrefix(P: Path, S: Path)
    requires P <= S
    ensures CommonPrefixLength(P, S) == |P|
  {
    assert forall j :: 0 <= j < |P| ==> P[j] == S[j];
  }
}
