/**
 * The filesystem the handler acts on, as a value: a map from normalised
 * absolute path to file contents and a set of directories.  The `os` and
 * `shutil` calls the handler makes are functions from one disk to the next,
 * or to the error they raise (`rmtree` can raise part way through, and then
 * gives both).  Paths are resolved lexically (`normpath`).
 */
module Disks {
  import opened Paths

  /** The exceptions the filesystem calls raise in this model. */
  datatype OsError =
    | FileExists          // FileExistsError
    | NotADirectory       // NotADirectoryError
    | IsADirectory        // IsADirectoryError
    | NotFound            // FileNotFoundError
    | DestinationExists   // shutil.Error: destination path already exists
    | MoveIntoItself      // shutil.Error: cannot move a directory into itself
    | InvalidArgument     // OSError (EINVAL): `rmdir` of a path ending in `.`

  datatype Result<T> = Ok(value: T) | Err(error: OsError)

  /** What a call that can raise part way through leaves behind. */
  datatype Attempt = Completed(disk: Disk) | Failed(disk: Disk, error: OsError)

  datatype Disk = Disk(files: map<Path, string>, dirs: set<Path>)

  /** A filesystem that is a tree: normalised keys, no path both a file and a
      directory, and every entry's ancestors are directories. */
  ghost predicate Valid(d: Disk) {
    && (forall p :: p in d.files ==> Normal(p) && p != [] && p !in d.dirs)
    && (forall p :: p in d.dirs ==> Normal(p))
    && (forall p, k :: p in d.files && 0 <= k < |p| ==> p[..k] in d.dirs)
    && (forall p, k :: p in d.dirs && 0 <= k < |p| ==> p[..k] in d.dirs)
  }

  /** `os.path.exists`. */
  predicate Exists(d: Disk, p: Path) {
    Normpath(p) in d.files || Normpath(p) in d.dirs
  }

  /** Some ancestor of `q`, or `q` itself, is a file. */
  predicate FileOnPath(d: Disk, q: Path) {
    exists k :: 1 <= k <= |q| && q[..k] in d.files
  }

  /** `os.makedirs(p, exist_ok=True)`: every missing directory on the way to
      `p` is created; a file on the way is an error. */
  function MakeDirs(d: Disk, p: Path): (r: Result<Disk>)
    ensures r.Ok? <==> !FileOnPath(d, Normpath(p))
    ensures r.Ok? ==> r.value.files == d.files
    ensures r.Ok? ==> forall x :: x in r.value.dirs <==> x in d.dirs || x <= Normpath(p)
    ensures r.Err? ==> r.error == (if Normpath(p) in d.files then FileExists else NotADirectory)
  {
    var q := Normpath(p);
    if FileOnPath(d, q) then
      Err(if q in d.files then FileExists else NotADirectory)
    else
      var made := set k | 0 <= k <= |q| :: q[..k];
      assert forall x :: x <= q ==> x == q[..|x|];
      Ok(Disk(d.files, d.dirs + made))
  }

  /** `open(p, 'w').write(text)`: creates or truncates the file at `p`; its
      parent must be a directory. */
  function WriteText(d: Disk, p: Path, text: string): (r: Result<Disk>)
    ensures r.Ok? <==> && Normpath(p) != [] && Normpath(p) !in d.dirs
                       && Dirname(Normpath(p)) in d.dirs && Dirname(Normpath(p)) !in d.files
    ensures r.Ok? ==> r.value.dirs == d.dirs
    ensures r.Ok? ==> r.value.files == d.files[Normpath(p) := text]
  {
    var q := Normpath(p);
    if q == [] || q in d.dirs then Err(IsADirectory)
    else if Dirname(q) in d.files then Err(NotADirectory)
    else if Dirname(q) !in d.dirs then Err(NotFound)
    else Ok(Disk(d.files[q := text], d.dirs))
  }

  /** `os.remove(p)`: removes one file; a directory is an error. */
  function Remove(d: Disk, p: Path): (r: Result<Disk>)
    ensures r.Ok? <==> Normpath(p) in d.files && Normpath(p) !in d.dirs
    ensures r.Ok? ==> r.value.dirs == d.dirs
    ensures r.Ok? ==> r.value.files == d.files - {Normpath(p)}
  {
    var q := Normpath(p);
    if q in d.dirs then Err(IsADirectory)
    else if q !in d.files then Err(NotFound)
    else Ok(Disk(d.files - {q}, d.dirs))
  }

  /** The entries of `d` that are not below `q` (strictly below, or also `q`
      itself when `inclusive`). */
  function Prune(d: Disk, q: Path, inclusive: bool): (r: Disk)
    ensures forall x :: x in r.files <==> x in d.files && !(q <= x && (inclusive || x != q))
    ensures forall x :: x in r.files ==> r.files[x] == d.files[x]
    ensures forall x :: x in r.dirs <==> x in d.dirs && !(q <= x && (inclusive || x != q))
  {
    Disk(map x | x in d.files && !(q <= x && (inclusive || x != q)) :: d.files[x],
         set x | x in d.dirs && !(q <= x && (inclusive || x != q)))
  }

  /** `shutil.rmtree(p)`: removes a directory and everything below it.  When
      the last component of `p` is `.` or `..`, the directory is emptied but
      the final `rmdir(p)` fails: Linux refuses to remove `.`, and after `..`
      the component before it, which lay below the directory, is gone.  The
      directory stays and the call raises. */
  function RemoveTree(d: Disk, p: Path): (r: Attempt)
    ensures r.Completed? <==> Normpath(p) in d.dirs && Normpath(p) !in d.files && !EndsInDots(p)
    ensures r.Completed? ==> r.disk == Prune(d, Normpath(p), true)
    ensures r.Failed? && Normpath(p) in d.dirs && Normpath(p) !in d.files ==>
      && r.disk == Prune(d, Normpath(p), false)
      && r.error == (if p[|p| - 1] == CurDir then InvalidArgument else NotFound)
    ensures r.Failed? && !(Normpath(p) in d.dirs && Normpath(p) !in d.files) ==>
      r.disk == d && r.error == (if Normpath(p) in d.files then NotADirectory else NotFound)
  {
    var q := Normpath(p);
    if q in d.files then Failed(d, NotADirectory)
    else if q !in d.dirs then Failed(d, NotFound)
    else if EndsInDots(p) then Failed(Prune(d, q, false), if p[|p| - 1] == CurDir then InvalidArgument else NotFound)
    else Completed(Prune(d, q, true))
  }

  /** `t + x[|o|..]`: the path `x` below `o`, moved below `t`. */
  function Reroot(x: Path, o: Path, t: Path): Path
    requires o <= x
  {
    t + x[|o|..]
  }

  lemma RerootInjective(o: Path, t: Path)
    ensures forall x1, x2 :: o <= x1 && o <= x2 && Reroot(x1, o, t) == Reroot(x2, o, t) ==> x1 == x2
  {
    forall x1, x2 | o <= x1 && o <= x2 && Reroot(x1, o, t) == Reroot(x2, o, t)
      ensures x1 == x2
    {
      assert x1[|o|..] == Reroot(x1, o, t)[|t|..] == x2[|o|..];
      assert x1 == o + x1[|o|..] && x2 == o + x2[|o|..];
    }
  }

  /** Renames the entry at `o`, with everything below it, to `t`, replacing
      whatever was at or below `t`.  This is `os.rename` once the checks of
      `Move` have passed. */
  function Relocate(d: Disk, o: Path, t: Path): (r: Disk)
    ensures forall x :: x in d.files && o <= x ==> Reroot(x, o, t) in r.files && r.files[Reroot(x, o, t)] == d.files[x]
    ensures forall x :: x in d.files && !(o <= x) && !(t <= x) ==> x in r.files && r.files[x] == d.files[x]
  {
    RerootInjective(o, t);
    var kept := map x | x in d.files && !(o <= x) && !(t <= x) :: d.files[x];
    var moved := map x | x in d.files && o <= x :: Reroot(x, o, t) := d.files[x];
    Disk(kept + moved,
         (set x | x in d.dirs && !(o <= x) && !(t <= x)) + (set x | x in d.dirs && o <= x :: Reroot(x, o, t)))
  }

  /** Where `shutil.move(src, dst)` puts `src`: inside `dst` under its own
      base name when `dst` is a directory, at `dst` otherwise. */
  function MoveTarget(d: Disk, src: Path, dst: Path): Path {
    if Normpath(dst) in d.dirs then Normpath(dst + [Basename(src)]) else Normpath(dst)
  }

  /** `shutil.move(src, dst)`.  A destination that is a directory receives the
      source under its own base name; moving a path onto itself does nothing. */
  function Move(d: Disk, src: Path, dst: Path): (r: Result<Disk>)
    ensures !Exists(d, src) ==> r == Err(NotFound)
    ensures Exists(d, src) && Normpath(dst) == Normpath(src) ==> r == Ok(d)
    ensures r.Ok? && Normpath(dst) != Normpath(src) ==> r.value == Relocate(d, Normpath(src), MoveTarget(d, src, dst))
    ensures r == Err(DestinationExists) <==>
      Exists(d, src) && Normpath(dst) in d.dirs && Normpath(dst) != Normpath(src) && Exists(d, MoveTarget(d, src, dst))
  {
    var o := Normpath(src);
    var n := Normpath(dst);
    if !Exists(d, src) then Err(NotFound)
    else if n in d.dirs then
      if n == o then Ok(d)
      else
        var target := MoveTarget(d, src, dst);
        if Exists(d, target) then Err(DestinationExists)
        else if o in d.dirs && o <= target then Err(MoveIntoItself)
        else Ok(Relocate(d, o, target))
    else if n == o then Ok(d)
    else if o in d.dirs && o <= n then Err(MoveIntoItself)
    else if o in d.dirs && n in d.files then Err(FileExists)
    else if n == [] || Dirname(n) !in d.dirs then Err(NotFound)
    else Ok(Relocate(d, o, n))
  }

  // ---------------------------------------------------------------------
  // Every call keeps the filesystem a tree
  // ---------------------------------------------------------------------

  lemma MakeDirsPreservesValid(d: Disk, p: Path)
    requires Valid(d) && MakeDirs(d, p).Ok?
    ensures Valid(MakeDirs(d, p).value)
  {
    var q := Normpath(p);
    var r := MakeDirs(d, p).value;
    forall x | x in r.dirs ensures Normal(x) && x !in d.files {
      if x <= q {
        assert x == q[..|x|];
        assert |x| == 0 || x == q[..|x|];
      }
    }
    forall x, k | x in r.dirs && 0 <= k < |x| ensures x[..k] in r.dirs {
      if x <= q {
        assert x[..k] <= q;
      }
    }
  }

  lemma WriteTextPreservesValid(d: Disk, p: Path, text: string)
    requires Valid(d) && WriteText(d, p, text).Ok?
    ensures Valid(WriteText(d, p, text).value)
  {
    var q := Normpath(p);
    var r := WriteText(d, p, text).value;
    forall k | 0 <= k < |q| ensures q[..k] in r.dirs {
      if k < |q| - 1 {
        assert q[..k] == Dirname(q)[..k];
      }
    }
  }

  lemma RemovePreservesValid(d: Disk, p: Path)
    requires Valid(d) && Remove(d, p).Ok?
    ensures Valid(Remove(d, p).value)
  {
  }

  lemma RemoveTreePreservesValid(d: Disk, p: Path)
    requires Valid(d)
    ensures Valid(RemoveTree(d, p).disk)
  {
    var q := Normpath(p);
    if q in d.dirs && q !in d.files {
      PrunePreservesValid(d, q, !EndsInDots(p));
    }
  }

  /** Removing what lies below a path keeps a tree a tree. */
  lemma PrunePreservesValid(d: Disk, q: Path, inclusive: bool)
    requires Valid(d)
    ensures Valid(Prune(d, q, inclusive))
  {
    var r := Prune(d, q, inclusive);
    forall x, k | (x in r.files || x in r.dirs) && 0 <= k < |x| ensures x[..k] in r.dirs {
      assert x[..k] in d.dirs;
    }
  }

  /** What `Move` asks of a relocation before it performs one. */
  ghost predicate RelocationAllowed(d: Disk, o: Path, t: Path) {
    && (o in d.files || o in d.dirs)
    && Normal(t) && t != [] && Dirname(t) in d.dirs
    && !(o <= t)
    && t !in d.dirs
    && (o in d.dirs ==> t !in d.files)
  }

  /** Membership after a relocation, without existentials: an entry below `t`
      is there when its counterpart below `o` was. */
  lemma RelocateMembership(d: Disk, o: Path, t: Path)
    ensures forall x :: x in Relocate(d, o, t).files <==>
      (x in d.files && !(o <= x) && !(t <= x)) || (t <= x && Reroot(x, t, o) in d.files)
    ensures forall x :: x in Relocate(d, o, t).dirs <==>
      (x in d.dirs && !(o <= x) && !(t <= x)) || (t <= x && Reroot(x, t, o) in d.dirs)
  {
    var r := Relocate(d, o, t);
    forall y | o <= y ensures t <= Reroot(y, o, t) && Reroot(Reroot(y, o, t), t, o) == y {
      assert Reroot(y, o, t)[|t|..] == y[|o|..];
    }
    forall x | t <= x ensures o <= Reroot(x, t, o) && Reroot(Reroot(x, t, o), o, t) == x {
      assert Reroot(x, t, o)[|o|..] == x[|t|..];
    }
  }

  /** The ancestors of a normalised path whose parent is a directory are
      directories. */
  lemma AncestorsAreDirs(d: Disk, t: Path)
    requires Valid(d) && t != [] && Dirname(t) in d.dirs
    ensures forall k :: 0 <= k < |t| ==> t[..k] in d.dirs
  {
    forall k | 0 <= k < |t| ensures t[..k] in d.dirs {
      if k < |t| - 1 {
        assert t[..k] == Dirname(t)[..k];
      }
    }
  }

  lemma {:induction false} RelocateEntries(d: Disk, o: Path, t: Path)
    requires Valid(d) && RelocationAllowed(d, o, t)
    ensures forall x :: x in Relocate(d, o, t).files ==> Normal(x) && x != [] && x !in Relocate(d, o, t).dirs
    ensures forall x :: x in Relocate(d, o, t).dirs ==> Normal(x)
  {
    var r := Relocate(d, o, t);
    forall x | x in r.files || x in r.dirs ensures Normal(x) {
      RelocatedEntryIsNormal(d, o, t, x);
    }
    forall x | x in r.files ensures x != [] && x !in r.dirs {
      RelocatedFileIsNoDir(d, o, t, x);
    }
  }

  lemma RelocatedEntryIsNormal(d: Disk, o: Path, t: Path, x: Path)
    requires Valid(d) && RelocationAllowed(d, o, t)
    requires x in Relocate(d, o, t).files || x in Relocate(d, o, t).dirs
    ensures Normal(x)
  {
    RelocateMembership(d, o, t);
    if t <= x && (Reroot(x, t, o) in d.files || Reroot(x, t, o) in d.dirs) {
      RerootNormal(x, t, o);
    }
  }

  /** A path below a normal `t` whose counterpart below `o` is normal is
      normal. */
  lemma RerootNormal(x: Path, t: Path, o: Path)
    requires t <= x && Normal(t) && Normal(Reroot(x, t, o))
    ensures Normal(x)
  {
    var y := Reroot(x, t, o);
    forall i | 0 <= i < |x| ensures Plain(x[i]) {
      if i >= |t| {
        assert x[i] == y[|o| + (i - |t|)];
      }
    }
  }

  lemma RelocatedFileIsNoDir(d: Disk, o: Path, t: Path, x: Path)
    requires Valid(d) && RelocationAllowed(d, o, t)
    requires x in Relocate(d, o, t).files
    ensures x != [] && x !in Relocate(d, o, t).dirs
  {
    RelocateMembership(d, o, t);
    if t <= x && Reroot(x, t, o) in d.files {
      assert Reroot(x, t, o) !in d.dirs;
    }
  }

  lemma {:induction false} RelocateClosedBelowTarget(d: Disk, o: Path, t: Path, x: Path, k: nat)
    requires Valid(d) && RelocationAllowed(d, o, t)
    requires t <= x && (Reroot(x, t, o) in d.files || Reroot(x, t, o) in d.dirs)
    requires k < |x|
    ensures (t <= x[..k] && Reroot(x[..k], t, o) in d.dirs)
      || (x[..k] in d.dirs && !(o <= x[..k]) && !(t <= x[..k]))
  {
    var y := Reroot(x, t, o);
    if k >= |t| {
      var j := |o| + (k - |t|);
      assert y[..j] in d.dirs;
      assert Reroot(x[..k], t, o) == y[..j];
    } else {
      AncestorsAreDirs(d, t);
      assert x[..k] == t[..k];
    }
  }

  lemma {:induction false} RelocateClosed(d: Disk, o: Path, t: Path, x: Path, k: nat)
    requires Valid(d) && RelocationAllowed(d, o, t)
    requires x in Relocate(d, o, t).files || x in Relocate(d, o, t).dirs
    requires k < |x|
    ensures x[..k] in Relocate(d, o, t).dirs
  {
    RelocateMembership(d, o, t);
    if t <= x && (Reroot(x, t, o) in d.files || Reroot(x, t, o) in d.dirs) {
      RelocateClosedBelowTarget(d, o, t, x, k);
    } else {
      assert x[..k] in d.dirs;
    }
  }

  lemma RelocatePreservesValid(d: Disk, o: Path, t: Path)
    requires Valid(d) && RelocationAllowed(d, o, t)
    ensures Valid(Relocate(d, o, t))
  {
    var r := Relocate(d, o, t);
    RelocateEntries(d, o, t);
    forall x, k | (x in r.files || x in r.dirs) && 0 <= k < |x| ensures x[..k] in r.dirs {
      RelocateClosed(d, o, t, x, k);
    }
  }

  /** Every prefix of a directory is a directory. */
  lemma DirPrefixes(d: Disk, p: Path)
    requires Valid(d) && p in d.dirs
    ensures forall o :: o <= p ==> o in d.dirs
  {
    forall o | o <= p ensures o in d.dirs {
      assert o == p[..|o|];
      if |o| < |p| {
        assert p[..|o|] in d.dirs;
      } else {
        assert p[..|o|] == p;
      }
    }
  }

  /** `shutil.move` onto an existing directory: unless its checks fail, the
      source may be relocated into the directory. */
  lemma MoveIntoDirAllowed(d: Disk, src: Path, dst: Path)
    requires Valid(d) && Exists(d, src)
    requires Normpath(dst) in d.dirs && Normpath(dst) != Normpath(src)
    ensures || Exists(d, Normpath(dst + [Basename(src)]))
            || (Normpath(src) in d.dirs && Normpath(src) <= Normpath(dst + [Basename(src)]))
            || RelocationAllowed(d, Normpath(src), Normpath(dst + [Basename(src)]))
  {
    var o := Normpath(src);
    var n := Normpath(dst);
    var b := Basename(src);
    var target := Normpath(dst + [b]);
    NormpathAppendOne(dst, b);
    NormpathOfNormal(target);
    DirPrefixes(d, n);
    if Plain(b) {
      assert Dirname(target) == n;
      PrefixOfParent(o, target);
    } else if n != [] {
      assert Dirname(n) <= n;
    }
  }

  /** `shutil.move` onto a path that is not a directory renames to it. */
  lemma MoveOntoPathAllowed(d: Disk, src: Path, dst: Path)
    requires Valid(d) && Exists(d, src)
    requires Normpath(dst) !in d.dirs && Normpath(dst) != Normpath(src)
    requires !(Normpath(src) in d.dirs && Normpath(src) <= Normpath(dst))
    requires !(Normpath(src) in d.dirs && Normpath(dst) in d.files)
    requires Normpath(dst) != [] && Dirname(Normpath(dst)) in d.dirs
    ensures RelocationAllowed(d, Normpath(src), Normpath(dst))
  {
    DirPrefixes(d, Dirname(Normpath(dst)));
    PrefixOfParent(Normpath(src), Normpath(dst));
  }

  lemma MovePreservesValid(d: Disk, src: Path, dst: Path)
    requires Valid(d) && Move(d, src, dst).Ok?
    ensures Valid(Move(d, src, dst).value)
  {
    var o := Normpath(src);
    var n := Normpath(dst);
    if n in d.dirs && n != o {
      MoveIntoDirAllowed(d, src, dst);
      RelocatePreservesValid(d, o, Normpath(dst + [Basename(src)]));
    } else if n != o {
      MoveOntoPathAllowed(d, src, dst);
      RelocatePreservesValid(d, o, n);
    }
  }

  // ---------------------------------------------------------------------
  // What the calls the handler relies on do on a tree
  // ---------------------------------------------------------------------

  /** `makedirs(p, exist_ok=True)` on an existing directory changes nothing. */
  lemma MakeDirsExistingIsNoop(d: Disk, p: Path)
    requires Valid(d) && Normpath(p) in d.dirs
    ensures MakeDirs(d, p) == Ok(d)
  {
    var q := Normpath(p);
    DirPrefixes(d, q);
    forall k | 1 <= k <= |q| ensures q[..k] !in d.files {
      assert q[..k] <= q;
    }
    var r := MakeDirs(d, p).value;
    assert r.dirs == d.dirs;
  }

  /** Below a file there is nothing. */
  lemma NothingBelowFile(d: Disk, o: Path)
    requires Valid(d) && o !in d.dirs
    ensures forall x :: x in d.files && o <= x ==> x == o
    ensures forall x :: x in d.dirs ==> !(o <= x)
  {
    forall x | (x in d.files || x in d.dirs) && o <= x ensures x == o && x !in d.dirs {
      assert x == x[..|o|] + x[|o|..];
      assert x[..|o|] == o;
    }
  }

  /** Relocating a file to a path that is not a directory renames it. */
  lemma RelocateFile(d: Disk, o: Path, n: Path)
    requires Valid(d) && o in d.files && n !in d.dirs && n != o
    ensures Relocate(d, o, n) == Disk((d.files - {o})[n := d.files[o]], d.dirs)
  {
    NothingBelowFile(d, o);
    NothingBelowFile(d, n);
    RelocateFileEntries(d, o, n);
    RelocateFileDirs(d, o, n);
  }

  lemma RelocateFileEntries(d: Disk, o: Path, n: Path)
    requires o in d.files && n != o
    requires forall x :: x in d.files && o <= x ==> x == o
    requires forall x :: x in d.files && n <= x ==> x == n
    ensures Relocate(d, o, n).files == (d.files - {o})[n := d.files[o]]
  {
    var r := Relocate(d, o, n);
    var want := (d.files - {o})[n := d.files[o]];
    RelocateMembership(d, o, n);
    forall x | x in r.files ensures x in want {
      if n <= x && Reroot(x, n, o) in d.files {
        var y := Reroot(x, n, o);
        assert o <= y;
        assert y == o;
        assert x == n + x[|n|..];
        assert |x| == |n|;
        assert x[|n|..] == [];
        assert x == n;
      } else {
        assert x in d.files && x != o;
      }
    }
    forall x | x in want ensures x in r.files && r.files[x] == want[x] {
      if x == n {
        assert Reroot(o, o, n) == n;
      } else {
        assert !(o <= x) && !(n <= x);
      }
    }
    assert r.files.Keys == want.Keys;
  }

  lemma RelocateFileDirs(d: Disk, o: Path, n: Path)
    requires forall x :: x in d.dirs ==> !(o <= x)
    requires forall x :: x in d.dirs ==> !(n <= x)
    ensures Relocate(d, o, n).dirs == d.dirs
  {
    RelocateMembership(d, o, n);
    forall y | n <= y ensures o <= Reroot(y, n, o) {
    }
  }

  /** Moving a file onto a path that is not a directory, in an existing
      directory, renames it: the contents arrive at the new path, the old path
      is gone, any file that was at the new path is replaced, and the
      directories stay as they were. */
  lemma MoveFileContents(d: Disk, src: Path, dst: Path)
    requires Valid(d) && Normpath(src) in d.files
    requires Normpath(dst) !in d.dirs && Normpath(dst) != Normpath(src)
    requires Normpath(dst) != [] && Dirname(Normpath(dst)) in d.dirs
    ensures Move(d, src, dst)
         == Ok(Disk((d.files - {Normpath(src)})[Normpath(dst) := d.files[Normpath(src)]], d.dirs))
  {
    assert Normpath(src) !in d.dirs;
    assert Move(d, src, dst) == Ok(Relocate(d, Normpath(src), Normpath(dst)));
    RelocateFile(d, Normpath(src), Normpath(dst));
  }
}
