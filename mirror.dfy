/**
 * The pure part of `FileHandler` (file_handler.py): the path each handler
 * derives from an event path, the sidecar record it writes, the console lines
 * it prints and the ordered probe it runs when a `.txt` file is deleted.
 * Unicode normalisation (`unicodedata.normalize('NFC', ...)`) is the function
 * value `nfc`, applied exactly where the source applies it.
 */
module Mirror {
  import opened Paths
  import opened Disks

  datatype Option<T> = None | Some(value: T)

  const TxtExt: string := ".txt"

  /** `FileHandler.border`: 25 equals signs. */
  const Border: string := "========================="

  /** The extensions probed, in this order, for the file a deleted `.txt`
      stands for (file_handler.py:121). */
  const PossibleExtensions: seq<string> :=
    [".mp4", ".avi", ".mkv", ".mov", ".webm", ".gif", ".jpeg", ".jpg",
     ".png", ".webp", ".mp3", ".aac", ".wav", ".flac", ".bmp"]

  /** `os.path.join(archive_dir, os.path.dirname(rel), stem + ".txt")`. */
  function SidecarPath(archive: Path, rel: Path, stem: string): Path {
    archive + Dirname(rel) + [stem + TxtExt]
  }

  /** `base_name` in `on_created`: the event path's last component, normalised. */
  function CreatedBaseName(nfc: string -> string, src: Path): string {
    nfc(Basename(src))
  }

  /** `txt_path` in `on_created` (file_handler.py:25-30). */
  function CreatedSidecar(watch: Path, archive: Path, nfc: string -> string, src: Path): Path {
    SidecarPath(archive, Relpath(src, watch), nfc(Stem(CreatedBaseName(nfc, src))))
  }

  /** `old_txt_path` / `new_txt_path` in `on_moved` (file_handler.py:77-84):
      the base name is taken from the relative path and only the stem is
      normalised. */
  function MovedSidecar(watch: Path, archive: Path, nfc: string -> string, path: Path): Path {
    var rel := Relpath(path, watch);
    SidecarPath(archive, rel, nfc(Stem(Basename(rel))))
  }

  /** `base_name` in `on_deleted` (file_handler.py:106). */
  function DeletedBaseName(watch: Path, nfc: string -> string, src: Path): string {
    nfc(Basename(Relpath(src, watch)))
  }

  /** `txt_path` in `on_deleted` (file_handler.py:105-110). */
  function DeletedSidecar(watch: Path, archive: Path, nfc: string -> string, src: Path): Path {
    SidecarPath(archive, Relpath(src, watch), nfc(Stem(DeletedBaseName(watch, nfc, src))))
  }

  /** `archive_dir_path` in `on_deleted` for a directory (file_handler.py:94-95). */
  function ArchiveCounterpart(watch: Path, archive: Path, src: Path): Path {
    archive + Relpath(src, watch)
  }

  /** The `watch_file_path` probed for each extension in the directory `dir`
      (file_handler.py:127-128). */
  function Candidates(dir: Path, stem: string): (r: seq<Path>)
    ensures |r| == |PossibleExtensions|
    ensures forall i :: 0 <= i < |r| ==> r[i] == dir + [stem + PossibleExtensions[i]]
  {
    seq(|PossibleExtensions|, i requires 0 <= i < |PossibleExtensions| => dir + [stem + PossibleExtensions[i]])
  }

  /** The candidates of `on_deleted` (file_handler.py:124-128): beside the
      event path's mirror in the watch tree; the stem is not normalised again
      here. */
  function WatchCandidates(watch: Path, src: Path, baseName: string): (r: seq<Path>)
    ensures |r| == |PossibleExtensions|
  {
    Candidates(watch + Dirname(Relpath(src, watch)), Stem(baseName))
  }

  /** The index of the first candidate that exists: the probe loop's result. */
  function FirstExisting(d: Disk, candidates: seq<Path>): (r: Option<nat>)
    ensures r.Some? ==> r.value < |candidates| && Exists(d, candidates[r.value])
    ensures r.Some? ==> forall j :: 0 <= j < r.value ==> !Exists(d, candidates[j])
    ensures r.None? <==> forall j :: 0 <= j < |candidates| ==> !Exists(d, candidates[j])
  {
    if candidates == [] then None
    else if Exists(d, candidates[0]) then Some(0)
    else
      match FirstExisting(d, candidates[1..])
      case None => None
      case Some(k) => Some(k + 1)
  }

  /** The first candidate that exists is the one found. */
  lemma FirstExistingAt(d: Disk, candidates: seq<Path>, i: nat)
    requires i < |candidates| && Exists(d, candidates[i])
    requires forall j :: 0 <= j < i ==> !Exists(d, candidates[j])
    ensures FirstExisting(d, candidates) == Some(i)
  {
    var r := FirstExisting(d, candidates);
    assert r.Some?;
    assert !(r.value < i);
  }

  // ---------------------------------------------------------------------
  // The sidecar record and the console lines
  // ---------------------------------------------------------------------

  /** The blank line between the `Link:` and `Last updated:` fields. */
  const BlankLine: string := "                        "

  /** The lines of a new sidecar, in order; the final empty line stands for
      the newline that ends the record (file_handler.py:54-61). */
  function SidecarRecord(baseName: string, currentDate: string): seq<string> {
    ["File name: " + baseName, "", "Link: ", BlankLine, "Last updated: " + currentDate, "", "Other:", ""]
  }

  /** `"\n".join(lines)`. */
  function JoinLines(lines: seq<string>): string {
    if lines == [] then ""
    else if |lines| == 1 then lines[0]
    else lines[0] + "\n" + JoinLines(lines[1..])
  }

  /** The text written to a new sidecar. */
  function SidecarText(baseName: string, currentDate: string): string {
    JoinLines(SidecarRecord(baseName, currentDate))
  }

  function FirstIndexOf(s: string, c: char): (r: int)
    ensures -1 <= r < |s|
    ensures r >= 0 ==> s[r] == c
    ensures forall j :: 0 <= j < |s| && (r < 0 || j < r) ==> s[j] != c
  {
    if s == [] then -1
    else if s[0] == c then 0
    else
      var k := FirstIndexOf(s[1..], c);
      if k < 0 then -1 else k + 1
  }

  /** `text.split('\n')`. */
  function Lines(text: string): (r: seq<string>)
    ensures |r| >= 1
    ensures forall i :: 0 <= i < |r| ==> '\n' !in r[i]
    decreases |text|
  {
    var i := FirstIndexOf(text, '\n');
    if i < 0 then [text] else [text[..i]] + Lines(text[i + 1..])
  }

  predicate StartsWith(s: string, prefix: string) {
    |prefix| <= |s| && s[..|prefix|] == prefix
  }

  /** The value of the first line of `text` that starts with `key`: how a
      reader of the archive recovers a field of a sidecar. */
  function Field(text: string, key: string): Option<string> {
    FieldOf(Lines(text), key)
  }

  function FieldOf(lines: seq<string>, key: string): (r: Option<string>)
    ensures r.Some? ==> exists i :: 0 <= i < |lines| && lines[i] == key + r.value
  {
    if lines == [] then None
    else if StartsWith(lines[0], key) then
      assert lines[0] == key + lines[0][|key|..];
      Some(lines[0][|key|..])
    else FieldOf(lines[1..], key)
  }

  function AddedLines(baseName: string): seq<string> {
    ["File added: " + baseName, "Corresponding source file also created.", Border]
  }

  function IgnoredLines(baseName: string): seq<string> {
    ["Ignored .txt file: " + baseName, Border]
  }

  function DirectoryDeletedLines(rel: Path): seq<string> {
    ["Directory deleted: " + Render(rel), "Corresponding source files also deleted.", Border]
  }

  function FileDeletedLines(baseName: string): seq<string> {
    ["File deleted: " + baseName, "Corresponding source file also deleted.", Border]
  }

  function WatchFileDeletedLines(baseName: string, stem: string, ext: string): seq<string> {
    ["File deleted: " + baseName, "Watch file also deleted: " + stem + ext, Border]
  }

  // ---------------------------------------------------------------------
  // Lemmas: the path mapping
  // ---------------------------------------------------------------------

  /** For a file `watch/dir/name` the sidecar is `archive/dir/<stem>.txt`: the
      same relative directory, the stem of the normalised name. */
  lemma SidecarOfWatchFile(watch: Path, archive: Path, nfc: string -> string, dir: Path, name: string)
    requires Normal(watch) && Normal(dir) && Plain(name)
    ensures CreatedSidecar(watch, archive, nfc, watch + dir + [name]) == archive + dir + [nfc(Stem(nfc(name))) + TxtExt]
    ensures MovedSidecar(watch, archive, nfc, watch + dir + [name]) == archive + dir + [nfc(Stem(name)) + TxtExt]
    ensures DeletedSidecar(watch, archive, nfc, watch + dir + [name]) == archive + dir + [nfc(Stem(nfc(name))) + TxtExt]
    ensures DeletedBaseName(watch, nfc, watch + dir + [name]) == nfc(name)
  {
    assert watch + dir + [name] == watch + (dir + [name]);
    RelpathBelow(watch, dir + [name]);
    assert Dirname(dir + [name]) == dir;
  }

  /** The sidecar depends on the directory and the stem only: two files that
      differ in extension share one sidecar. */
  lemma SidecarIgnoresExtension(watch: Path, archive: Path, nfc: string -> string, dir: Path, n1: string, n2: string)
    requires Normal(watch) && Normal(dir) && Plain(n1) && Plain(n2)
    requires Stem(nfc(n1)) == Stem(nfc(n2))
    ensures CreatedSidecar(watch, archive, nfc, watch + dir + [n1]) == CreatedSidecar(watch, archive, nfc, watch + dir + [n2])
  {
    SidecarOfWatchFile(watch, archive, nfc, dir, n1);
    SidecarOfWatchFile(watch, archive, nfc, dir, n2);
  }

  /** `clip.mp4` and `clip.mov` in one directory collide on `clip.txt`. */
  lemma ClipCollision(watch: Path, archive: Path, nfc: string -> string, dir: Path)
    requires Normal(watch) && Normal(dir)
    requires nfc("clip.mp4") == "clip.mp4" && nfc("clip.mov") == "clip.mov"
    ensures CreatedSidecar(watch, archive, nfc, watch + dir + ["clip.mp4"]) == archive + dir + [nfc("clip") + TxtExt]
    ensures CreatedSidecar(watch, archive, nfc, watch + dir + ["clip.mov"]) == archive + dir + [nfc("clip") + TxtExt]
  {
    assert "clip"[0] != '.';
    assert ".mp4"[1..] == "mp4" && ".mov"[1..] == "mov";
    SplitextOfAppend("clip", ".mp4");
    SplitextOfAppend("clip", ".mov");
    assert "clip" + ".mp4" == "clip.mp4" && "clip" + ".mov" == "clip.mov";
    SidecarOfWatchFile(watch, archive, nfc, dir, "clip.mp4");
    SidecarOfWatchFile(watch, archive, nfc, dir, "clip.mov");
  }

  /** For a file below the watch root, the event path equals the sidecar path
      computed from it exactly when the two roots are the same directory and
      the name is already its own sidecar name. */
  lemma OwnSidecarIffSameRoot(watch: Path, archive: Path, nfc: string -> string, dir: Path, name: string)
    requires Normal(watch) && Normal(dir) && Plain(name)
    ensures CreatedSidecar(watch, archive, nfc, watch + dir + [name]) == watch + dir + [name]
        <==> archive == watch && name == nfc(Stem(nfc(name))) + TxtExt
  {
    SidecarOfWatchFile(watch, archive, nfc, dir, name);
    SplitAroundMiddle(archive, watch, dir, nfc(Stem(nfc(name))) + TxtExt, name);
  }

  /** The path `root/dirname(relpath(p, root))/c` lies beside `p` whenever `p`
      is not the root or one of its ancestors: `..` components climb out of
      the root as far as `p` requires. */
  lemma {:induction false} BesideEventPath(root: Path, p: Path, c: string)
    requires Plain(c) && !(Normpath(p) <= Normpath(root))
    ensures Normpath(root + Dirname(Relpath(p, root)) + [c]) == Dirname(Normpath(p)) + [c]
  {
    var i := RelpathParent(p, root);
    ClimbToParent(root, Dirname(Normpath(p)), i, c);
  }

  /** From `root`, climbing to the common prefix with `D` and descending
      along `D` to `c` arrives at `D/c`. */
  lemma {:induction false} ClimbToParent(root: Path, D: Path, i: nat, c: string)
    requires Plain(c) && Normal(D)
    requires i <= |D| && i <= |Normpath(root)| && D[..i] == Normpath(root)[..i]
    ensures Normpath(root + (Dots(|Normpath(root)| - i) + D[i..]) + [c]) == D + [c]
  {
    var up := Dots(|Normpath(root)| - i) + D[i..];
    ClimbToDir(root, D, i);
    DirnameOfNormpath(root + up, c);
  }

  /** From `root`, climbing to the common prefix with `D` and descending
      along `D` arrives at `D`. */
  lemma {:induction false} ClimbToDir(root: Path, D: Path, i: nat)
    requires Normal(D)
    requires i <= |D| && i <= |Normpath(root)| && D[..i] == Normpath(root)[..i]
    ensures Normpath(root + (Dots(|Normpath(root)| - i) + D[i..])) == D
  {
    var S := Normpath(root);
    var up := Dots(|S| - i) + D[i..];
    NormpathAppend(root, up);
    ClimbThenDescend(S, D, i);
  }

  /** Every candidate of the reverse probe lies beside the deleted file. */
  lemma ProbeBesideDeletedFile(watch: Path, src: Path, baseName: string, k: nat)
    requires !(Normpath(src) <= Normpath(watch)) && k < |PossibleExtensions|
    ensures Normpath(WatchCandidates(watch, src, baseName)[k])
         == Dirname(Normpath(src)) + [Stem(baseName) + PossibleExtensions[k]]
  {
    var c := Stem(baseName) + PossibleExtensions[k];
    assert |PossibleExtensions[k]| >= 4;
    assert Plain(c);
    BesideEventPath(watch, src, c);
  }

  /** With sibling roots `parent/w` and `parent/a` (the layout of two
      temporary directories), an event below the archive root has a relative
      path that climbs out of the watch root into the archive root. */
  lemma SiblingRelpath(parent: Path, w: string, a: string, x: Path)
    requires Normal(parent) && Plain(w) && Plain(a) && w != a && Normal(x)
    ensures Relpath(parent + [a] + x, parent + [w]) == [ParDir, a] + x
  {
    var A := parent + [a];
    var W := parent + [w];
    assert Normal(A + x) && Normal(W);
    NormpathOfNormal(A + x);
    NormpathOfNormal(W);
    assert (A + x)[|parent|] == a;
    assert (A + x)[..|parent|] == W[..|parent|];
    assert CommonPrefixLength(A + x, W) == |parent|;
    assert (A + x)[|parent|..] == [a] + x;
  }

  /** With sibling roots, the sidecar `on_created` and `on_deleted` compute for
      a file in the archive tree lies in the archive tree, beside that file. */
  lemma SiblingSidecarsStayInArchive(parent: Path, w: string, a: string, x: Path, nfc: string -> string)
    requires Normal(parent) && Plain(w) && Plain(a) && w != a && Normal(x) && x != []
    ensures var W, A, src := parent + [w], parent + [a], parent + [a] + x;
      && Normpath(DeletedSidecar(W, A, nfc, src)) == A + Dirname(x) + [nfc(Stem(nfc(x[|x| - 1]))) + TxtExt]
      && Normpath(CreatedSidecar(W, A, nfc, src)) == A + Dirname(x) + [nfc(Stem(nfc(x[|x| - 1]))) + TxtExt]
  {
    var W, A, src := parent + [w], parent + [a], parent + [a] + x;
    SiblingRelpath(parent, w, a, x);
    var rel := [ParDir, a] + x;
    assert Dirname(rel) == [ParDir, a] + Dirname(x);
    assert Basename(rel) == x[|x| - 1] == Basename(src);
    var name := nfc(Stem(nfc(x[|x| - 1]))) + TxtExt;
    assert Plain(name) by { assert |name| >= 4; }
    assert Normal(Dirname(x));
    ClimbBackIn(parent, a, Dirname(x), name);
  }

  /** With roots at different depths the sidecar can leave the archive: for
      watch root `y/w` and archive root `x/a/b`, the file `x/a/b/f.mp4` has
      `relpath` `../../x/a/b/f.mp4`, and its sidecar resolves to
      `x/x/a/b/f.txt`. */
  lemma SidecarOutsideArchive(nfc: string -> string)
    requires nfc("f.mp4") == "f.mp4" && nfc("f") == "f"
    ensures Normpath(CreatedSidecar(["y", "w"], ["x", "a", "b"], nfc, ["x", "a", "b", "f.mp4"])) == ["x", "x", "a", "b", "f.txt"]
  {
    var R := RelpathAcrossRoots();
    assert Dirname(R) == ["..", "..", "x", "a", "b"];
    StemOfF();
    assert CreatedBaseName(nfc, ["x", "a", "b", "f.mp4"]) == "f.mp4";
    ClimbOutOfArchive();
  }

  lemma RelpathAcrossRoots() returns (R: Path)
    ensures R == Relpath(["x", "a", "b", "f.mp4"], ["y", "w"]) && R == ["..", "..", "x", "a", "b", "f.mp4"]
  {
    var p: Path, w: Path := ["x", "a", "b", "f.mp4"], ["y", "w"];
    assert Normal(p) && Normal(w) by {
      assert forall k :: 0 <= k < |p| ==> Plain(p[k]);
      assert forall k :: 0 <= k < |w| ==> Plain(w[k]);
    }
    NormpathOfNormal(p);
    NormpathOfNormal(w);
    assert p[0] != w[0];
    R := Relpath(p, w);
    assert Dots(2) == ["..", ".."];
  }

  lemma StemOfF()
    ensures Stem("f.mp4") == "f"
  {
    assert "f"[0] != '.';
    assert ".mp4"[0] == '.' && '.' !in ".mp4"[1..];
    SplitextOfAppend("f", ".mp4");
    assert "f" + ".mp4" == "f.mp4";
  }

  lemma ClimbOutOfArchive()
    ensures Normpath(SidecarPath(["x", "a", "b"], ["..", "..", "x", "a", "b", "f.mp4"], "f")) == ["x", "x", "a", "b", "f.txt"]
  {
    var txt := SidecarPath(["x", "a", "b"], ["..", "..", "x", "a", "b", "f.mp4"], "f");
    assert Dirname(["..", "..", "x", "a", "b", "f.mp4"]) == ["..", "..", "x", "a", "b"];
    assert "f" + TxtExt == "f.txt";
    assert Dots(2) == ["..", ".."];
    assert txt == ["x", "a", "b"] + Dots(2) + ["x", "a", "b", "f.txt"];
    NormpathClimb(["x", "a", "b"], 2);
    NormpathAppendNormal(["x", "a", "b"] + Dots(2), ["x", "a", "b", "f.txt"]);
  }

  /** With sibling roots, every candidate the reverse probe tries for a file
      deleted from the archive tree lies beside that file, never in the watch
      tree. */
  lemma SiblingProbeStaysInArchive(parent: Path, w: string, a: string, x: Path, nfc: string -> string, k: nat)
    requires Normal(parent) && Plain(w) && Plain(a) && w != a && Normal(x) && x != []
    requires k < |PossibleExtensions|
    ensures var W, A, src := parent + [w], parent + [a], parent + [a] + x;
      var cand := Normpath(WatchCandidates(W, src, DeletedBaseName(W, nfc, src))[k]);
      && cand == A + Dirname(x) + [Stem(DeletedBaseName(W, nfc, src)) + PossibleExtensions[k]]
      && !(W <= cand)
  {
    var W, A, src := parent + [w], parent + [a], parent + [a] + x;
    assert Normal(A + x);
    NormpathOfNormal(A + x);
    NormpathOfNormal(W);
    assert !(Normpath(src) <= Normpath(W)) by {
      assert |Normpath(src)| > |W|;
    }
    assert Dirname(Normpath(src)) == A + Dirname(x);
    ProbeBesideDeletedFile(W, src, DeletedBaseName(W, nfc, src), k);
    assert W[|parent|] == w && (A + Dirname(x))[|parent|] == a;
  }

  /** With sibling roots, `on_created` for a file in the archive tree never
      sees its own path as the sidecar path: the computed one holds a `..`. */
  lemma SiblingGuardNeverFires(parent: Path, w: string, a: string, x: Path, nfc: string -> string)
    requires Normal(parent) && Plain(w) && Plain(a) && w != a && Normal(x) && x != []
    ensures CreatedSidecar(parent + [w], parent + [a], nfc, parent + [a] + x) != parent + [a] + x
  {
    SiblingRelpath(parent, w, a, x);
    var A := parent + [a];
    assert CreatedSidecar(parent + [w], A, nfc, A + x)[|A|] == ParDir;
    assert (A + x)[|A|] == x[0];
  }

  // ---------------------------------------------------------------------
  // Lemmas: the sidecar record
  // ---------------------------------------------------------------------

  lemma LinesCons(a: string, b: string)
    requires '\n' !in a
    ensures Lines(a + "\n" + b) == [a] + Lines(b)
  {
    var t := a + "\n" + b;
    assert t[|a|] == '\n';
    assert forall j :: 0 <= j < |a| ==> t[j] == a[j];
    assert FirstIndexOf(t, '\n') == |a|;
    assert t[..|a|] == a && t[|a| + 1..] == b;
  }

  /** Splitting at newlines undoes joining lines that hold none. */
  lemma {:induction false} LinesOfJoin(lines: seq<string>)
    requires |lines| >= 1
    requires forall i :: 0 <= i < |lines| ==> '\n' !in lines[i]
    ensures Lines(JoinLines(lines)) == lines
  {
    if |lines| == 1 {
      assert FirstIndexOf(lines[0], '\n') < 0;
    } else {
      var rest := lines[1..];
      assert forall i :: 0 <= i < |rest| ==> '\n' !in rest[i] by {
        forall i | 0 <= i < |rest| ensures '\n' !in rest[i] {
          assert rest[i] == lines[i + 1];
        }
      }
      LinesOfJoin(rest);
      LinesCons(lines[0], JoinLines(rest));
      assert lines == [lines[0]] + rest;
    }
  }

  lemma NoNewlineIn(prefix: string, s: string)
    requires '\n' !in prefix && '\n' !in s
    ensures '\n' !in prefix + s
  {
    assert forall j :: 0 <= j < |prefix + s| ==> (prefix + s)[j] == (if j < |prefix| then prefix[j] else s[j - |prefix|]);
  }

  /** A sidecar read back line by line is the record it was written from. */
  lemma SidecarLines(baseName: string, currentDate: string)
    requires '\n' !in baseName && '\n' !in currentDate
    ensures Lines(SidecarText(baseName, currentDate)) == SidecarRecord(baseName, currentDate)
  {
    NoNewlineIn("File name: ", baseName);
    NoNewlineIn("Last updated: ", currentDate);
    LinesOfJoin(SidecarRecord(baseName, currentDate));
  }

  lemma FieldAt(lines: seq<string>, key: string, k: nat)
    requires k < |lines| && StartsWith(lines[k], key)
    requires forall j :: 0 <= j < k ==> !StartsWith(lines[j], key)
    ensures FieldOf(lines, key) == Some(lines[k][|key|..])
  {
    if k > 0 {
      FieldAt(lines[1..], key, k - 1);
    }
  }

  /** A line whose first character differs from the key's does not start
      with it. */
  lemma FirstCharDiffers(s: string, key: string)
    requires s != [] && key != [] && s[0] != key[0]
    ensures !StartsWith(s, key)
  {
    if |key| <= |s| {
      assert s[..|key|][0] == s[0];
    }
  }

  /** The record's first line holds the file name. */
  lemma RecordFileName(baseName: string, currentDate: string)
    ensures FieldOf(SidecarRecord(baseName, currentDate), "File name: ") == Some(baseName)
  {
    var ls := SidecarRecord(baseName, currentDate);
    assert ls[0][..11] == "File name: " && ls[0][11..] == baseName;
    FieldAt(ls, "File name: ", 0);
  }

  /** The record's `Link:` line is blank after the label. */
  lemma RecordLink(baseName: string, currentDate: string)
    ensures FieldOf(SidecarRecord(baseName, currentDate), "Link: ") == Some("")
  {
    var ls := SidecarRecord(baseName, currentDate);
    FirstCharDiffers(ls[0], "Link: ");
    assert ls[2][..6] == "Link: ";
    FieldAt(ls, "Link: ", 2);
  }

  /** The record's `Last updated:` line holds the date. */
  lemma RecordDate(baseName: string, currentDate: string)
    ensures FieldOf(SidecarRecord(baseName, currentDate), "Last updated: ") == Some(currentDate)
  {
    var ls := SidecarRecord(baseName, currentDate);
    FirstCharDiffers(ls[0], "Last updated: ");
    FirstCharDiffers(ls[3], "Last updated: ");
    assert ls[4][..14] == "Last updated: " && ls[4][14..] == currentDate;
    FieldAt(ls, "Last updated: ", 4);
  }

  /** The record's `Other:` line is blank after the label. */
  lemma RecordOther(baseName: string, currentDate: string)
    ensures FieldOf(SidecarRecord(baseName, currentDate), "Other:") == Some("")
  {
    var ls := SidecarRecord(baseName, currentDate);
    FirstCharDiffers(ls[0], "Other:");
    FirstCharDiffers(ls[2], "Other:");
    FirstCharDiffers(ls[3], "Other:");
    FirstCharDiffers(ls[4], "Other:");
    assert ls[6][..6] == "Other:";
    FieldAt(ls, "Other:", 6);
  }

  /** Reading the record back gives the file name and the date it was written
      with, and leaves the link and other fields blank. */
  lemma SidecarRecordsNameAndDate(baseName: string, currentDate: string)
    requires '\n' !in baseName && '\n' !in currentDate
    ensures Field(SidecarText(baseName, currentDate), "File name: ") == Some(baseName)
    ensures Field(SidecarText(baseName, currentDate), "Link: ") == Some("")
    ensures Field(SidecarText(baseName, currentDate), "Last updated: ") == Some(currentDate)
    ensures Field(SidecarText(baseName, currentDate), "Other:") == Some("")
  {
    SidecarLines(baseName, currentDate);
    RecordFileName(baseName, currentDate);
    RecordLink(baseName, currentDate);
    RecordDate(baseName, currentDate);
    RecordOther(baseName, currentDate);
  }
}
