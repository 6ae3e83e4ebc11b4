/**
 * `FileHandler` (file_handler.py): the watchdog event handler that keeps an
 * archive tree of `.txt` sidecars in step with a watched tree of media files.
 *
 * The handler's own state is the set of sidecars it has written.  The
 * filesystem it reaches through `os` and `shutil`, and the console it prints
 * to, are fields of the class as well, so that each handler is a method that
 * changes them.  Each method is proved equal to a step function on the whole
 * state; the properties of the handlers are lemmas about those functions.
 */
module Handler {
  import opened Paths
  import opened Disks
  import opened Mirror

  /** A watchdog event: `src_path`, `dest_path` (moves only) and
      `is_directory`. */
  datatype Event = Event(srcPath: Path, destPath: Path, isDirectory: bool)

  /** How a handler call ends: it returns, or a filesystem call raises. */
  datatype Outcome = Returned | Raised(error: OsError)

  /** The sidecars written so far, the filesystem and the console. */
  datatype State = State(markers: set<Path>, disk: Disk, log: seq<string>)

  datatype Step = Step(state: State, outcome: Outcome)

  /** The filesystem is a tree and every marker is a `.txt` path whose raw
      components begin with the archive root's (before `..` is resolved: the
      normalised path can lie outside the archive). */
  ghost predicate Good(archive: Path, s: State) {
    && Disks.Valid(s.disk)
    && forall m :: m in s.markers ==> archive <= m && EndsWith(Basename(m), TxtExt)
  }

  // ---------------------------------------------------------------------
  // The handlers as functions of the state
  // ---------------------------------------------------------------------

  /** `on_created` for a file (file_handler.py:33-69), once the sidecar path
      `txt` and the normalised name `baseName` are known. */
  function CreateSidecar(s: State, src: Path, txt: Path, baseName: string, currentDate: string): Step {
    match MakeDirs(s.disk, Dirname(txt))
    case Err(err) => Step(s, Raised(err))
    case Ok(d1) =>
      if src == txt then Step(s.(disk := d1), Returned)
      else if EndsWith(baseName, TxtExt) then
        if src in s.markers then Step(s.(disk := d1), Returned)
        else Step(State(s.markers, d1, s.log + IgnoredLines(baseName)), Returned)
      else
        match WriteText(d1, txt, SidecarText(baseName, currentDate))
        case Err(err) => Step(s.(disk := d1), Raised(err))
        case Ok(d2) => Step(State(s.markers + {txt}, d2, s.log + AddedLines(baseName)), Returned)
  }

  /** `on_created` (file_handler.py:20-69). */
  function OnCreatedStep(watch: Path, archive: Path, nfc: string -> string, s: State, e: Event, currentDate: string): Step {
    if e.isDirectory then Step(s, Returned)
    else CreateSidecar(s, e.srcPath, CreatedSidecar(watch, archive, nfc, e.srcPath), CreatedBaseName(nfc, e.srcPath), currentDate)
  }

  /** `on_moved` for a file (file_handler.py:86-88), once both sidecar paths
      are known. */
  function MoveSidecar(s: State, oldTxt: Path, newTxt: Path): Step {
    if !Exists(s.disk, oldTxt) then Step(s, Returned)
    else
      match MakeDirs(s.disk, Dirname(newTxt))
      case Err(err) => Step(s, Raised(err))
      case Ok(d1) =>
        match Move(d1, oldTxt, newTxt)
        case Err(err) => Step(s.(disk := d1), Raised(err))
        case Ok(d2) => Step(s.(disk := d2), Returned)
  }

  /** `on_moved` (file_handler.py:73-88). */
  function OnMovedStep(watch: Path, archive: Path, nfc: string -> string, s: State, e: Event): Step {
    if e.isDirectory then Step(s, Returned)
    else MoveSidecar(s, MovedSidecar(watch, archive, nfc, e.srcPath), MovedSidecar(watch, archive, nfc, e.destPath))
  }

  /** The probe loop (file_handler.py:127-134) over its candidates: the first
      one that exists is removed. */
  function ProbeCandidates(s: State, candidates: seq<Path>, baseName: string): Step
    requires |candidates| == |PossibleExtensions|
  {
    match FirstExisting(s.disk, candidates)
    case None => Step(s, Returned)
    case Some(k) =>
      match Remove(s.disk, candidates[k])
      case Err(err) => Step(s, Raised(err))
      case Ok(d) =>
        Step(s.(disk := d, log := s.log + WatchFileDeletedLines(baseName, Stem(baseName), PossibleExtensions[k])), Returned)
  }

  /** The reverse probe of `on_deleted` (file_handler.py:119-134). */
  function ProbeStep(watch: Path, nfc: string -> string, s: State, src: Path): Step {
    var baseName := DeletedBaseName(watch, nfc, src);
    if !EndsWith(baseName, TxtExt) then Step(s, Returned)
    else ProbeCandidates(s, WatchCandidates(watch, src, baseName), baseName)
  }

  /** `on_deleted` for a directory (file_handler.py:97-101), once its mirror
      and its relative path are known. */
  function RemoveMirror(s: State, mirrorDir: Path, rel: Path): Step {
    if !Exists(s.disk, mirrorDir) then Step(s, Returned)
    else
      match RemoveTree(s.disk, mirrorDir)
      case Failed(d1, err) => Step(s.(disk := d1), Raised(err))
      case Completed(d1) => Step(s.(disk := d1, log := s.log + DirectoryDeletedLines(rel)), Returned)
  }

  /** The first half of `on_deleted` for a file (file_handler.py:111-115):
      the sidecar goes if it exists. */
  function RemoveSidecar(s: State, txt: Path, baseName: string): Step {
    if !Exists(s.disk, txt) then Step(s, Returned)
    else
      match Remove(s.disk, txt)
      case Err(err) => Step(s, Raised(err))
      case Ok(d1) => Step(s.(disk := d1, log := s.log + FileDeletedLines(baseName)), Returned)
  }

  /** `on_deleted` (file_handler.py:91-134). */
  function OnDeletedStep(watch: Path, archive: Path, nfc: string -> string, s: State, e: Event): Step {
    if e.isDirectory then
      RemoveMirror(s, ArchiveCounterpart(watch, archive, e.srcPath), Relpath(e.srcPath, watch))
    else
      var first := RemoveSidecar(s, DeletedSidecar(watch, archive, nfc, e.srcPath), DeletedBaseName(watch, nfc, e.srcPath));
      if first.outcome.Raised? then first else ProbeStep(watch, nfc, first.state, e.srcPath)
  }

  // ---------------------------------------------------------------------
  // The class
  // ---------------------------------------------------------------------

  class FileHandler {
    const watchDir: Path
    const archiveDir: Path
    /** `unicodedata.normalize('NFC', _)`. */
    const nfc: string -> string
    /** `system_created_txt_files`: the sidecars this handler has written. */
    var systemCreatedTxtFiles: set<Path>
    /** The filesystem the handler reads and changes. */
    var disk: Disk
    /** The lines printed so far. */
    var log: seq<string>

    function Snapshot(): State
      reads this
    {
      State(systemCreatedTxtFiles, disk, log)
    }

    ghost predicate Valid()
      reads this
    {
      Good(archiveDir, Snapshot())
    }

    /** `__init__` (file_handler.py:12-17): no sidecar written yet. */
    constructor(watchDir: Path, archiveDir: Path, nfc: string -> string, disk: Disk, log: seq<string>)
      ensures this.watchDir == watchDir && this.archiveDir == archiveDir && this.nfc == nfc
      ensures systemCreatedTxtFiles == {} && this.disk == disk && this.log == log
      ensures Disks.Valid(disk) ==> Valid()
    {
      this.watchDir := watchDir;
      this.archiveDir := archiveDir;
      this.nfc := nfc;
      systemCreatedTxtFiles := {};
      this.disk := disk;
      this.log := log;
    }

    /** `on_created`; `currentDate` is `datetime.now()` as formatted at
        file_handler.py:49. */
    method OnCreated(event: Event, currentDate: string) returns (outcome: Outcome)
      modifies this
      ensures Step(Snapshot(), outcome) == OnCreatedStep(watchDir, archiveDir, nfc, old(Snapshot()), event, currentDate)
      ensures old(Valid()) ==> Valid()
      ensures event.isDirectory ==> Snapshot() == old(Snapshot()) && outcome == Returned
    {
      ghost var s0 := Snapshot();
      if Valid() {
        OnCreatedStepInvariant(watchDir, archiveDir, nfc, s0, event, currentDate);
      }
      if event.isDirectory {
        return Returned;
      }
      var txt := CreatedSidecar(watchDir, archiveDir, nfc, event.srcPath);
      var baseName := CreatedBaseName(nfc, event.srcPath);
      outcome := CreateSidecarFile(event.srcPath, txt, baseName, currentDate);
    }

    /** The rest of `on_created` (file_handler.py:33-69) once the sidecar
        path and the normalised name are known. */
    method CreateSidecarFile(src: Path, txt: Path, baseName: string, currentDate: string) returns (outcome: Outcome)
      modifies this
      ensures Step(Snapshot(), outcome) == CreateSidecar(old(Snapshot()), src, txt, baseName, currentDate)
    {
      var made := MakeDirs(disk, Dirname(txt));
      if made.Err? {
        return Raised(made.error);
      }
      disk := made.value;
      if src == txt {
        return Returned;
      }
      if EndsWith(baseName, TxtExt) {
        if src !in systemCreatedTxtFiles {
          log := log + IgnoredLines(baseName);
        }
        return Returned;
      }
      var written := WriteText(disk, txt, SidecarText(baseName, currentDate));
      if written.Err? {
        return Raised(written.error);
      }
      disk := written.value;
      systemCreatedTxtFiles := systemCreatedTxtFiles + {txt};
      log := log + AddedLines(baseName);
      outcome := Returned;
    }

    /** `on_moved`. */
    method OnMoved(event: Event) returns (outcome: Outcome)
      modifies this
      ensures Step(Snapshot(), outcome) == OnMovedStep(watchDir, archiveDir, nfc, old(Snapshot()), event)
      ensures old(Valid()) ==> Valid()
      ensures event.isDirectory ==> Snapshot() == old(Snapshot()) && outcome == Returned
    {
      ghost var s0 := Snapshot();
      if Valid() {
        OnMovedStepInvariant(watchDir, archiveDir, nfc, s0, event);
      }
      if event.isDirectory {
        return Returned;
      }
      var oldTxt := MovedSidecar(watchDir, archiveDir, nfc, event.srcPath);
      var newTxt := MovedSidecar(watchDir, archiveDir, nfc, event.destPath);
      outcome := MoveSidecarFile(oldTxt, newTxt);
    }

    /** The end of `on_moved` (file_handler.py:86-88): if the old sidecar
        exists, its new directory is made and it is moved there. */
    method MoveSidecarFile(oldTxt: Path, newTxt: Path) returns (outcome: Outcome)
      modifies this
      ensures Step(Snapshot(), outcome) == MoveSidecar(old(Snapshot()), oldTxt, newTxt)
    {
      if Exists(disk, oldTxt) {
        var made := MakeDirs(disk, Dirname(newTxt));
        if made.Err? {
          return Raised(made.error);
        }
        disk := made.value;
        var moved := Move(disk, oldTxt, newTxt);
        if moved.Err? {
          return Raised(moved.error);
        }
        disk := moved.value;
      }
      outcome := Returned;
    }

    /** `on_deleted`: the mirrored directory or sidecar goes, then for a
        `.txt` name the extensions are tried in order and the first file
        found is removed. */
    method OnDeleted(event: Event) returns (outcome: Outcome)
      modifies this
      ensures Step(Snapshot(), outcome) == OnDeletedStep(watchDir, archiveDir, nfc, old(Snapshot()), event)
      ensures old(Valid()) ==> Valid()
    {
      ghost var s0 := Snapshot();
      if Valid() {
        OnDeletedStepInvariant(watchDir, archiveDir, nfc, s0, event);
      }
      if event.isDirectory {
        var relativeDir := Relpath(event.srcPath, watchDir);
        outcome := RemoveMirrorDir(archiveDir + relativeDir, relativeDir);
        return;
      }
      var baseName := DeletedBaseName(watchDir, nfc, event.srcPath);
      var txt := DeletedSidecar(watchDir, archiveDir, nfc, event.srcPath);
      outcome := RemoveSidecarFile(txt, baseName);
      if outcome.Raised? {
        return;
      }
      outcome := ProbeWatchFile(event.srcPath);
    }

    /** The directory branch of `on_deleted` (file_handler.py:97-101): the
        mirror, if it exists, is removed with everything below it. */
    method RemoveMirrorDir(mirrorDir: Path, rel: Path) returns (outcome: Outcome)
      modifies this
      ensures Step(Snapshot(), outcome) == RemoveMirror(old(Snapshot()), mirrorDir, rel)
    {
      if Exists(disk, mirrorDir) {
        var removed := RemoveTree(disk, mirrorDir);
        disk := removed.disk;
        if removed.Failed? {
          return Raised(removed.error);
        }
        log := log + DirectoryDeletedLines(rel);
      }
      outcome := Returned;
    }

    /** The sidecar removal of `on_deleted` (file_handler.py:111-115). */
    method RemoveSidecarFile(txt: Path, baseName: string) returns (outcome: Outcome)
      modifies this
      ensures Step(Snapshot(), outcome) == RemoveSidecar(old(Snapshot()), txt, baseName)
    {
      if Exists(disk, txt) {
        var removed := Remove(disk, txt);
        if removed.Err? {
          return Raised(removed.error);
        }
        disk := removed.value;
        log := log + FileDeletedLines(baseName);
      }
      outcome := Returned;
    }

    /** The second half of `on_deleted` (file_handler.py:119-134): for a
        `.txt` name, try the extensions in order and remove the first file
        found beside the event path's mirror in the watch tree. */
    method ProbeWatchFile(src: Path) returns (outcome: Outcome)
      modifies this
      ensures Step(Snapshot(), outcome) == ProbeStep(watchDir, nfc, old(Snapshot()), src)
    {
      var relativePath := Relpath(src, watchDir);
      var baseName := DeletedBaseName(watchDir, nfc, src);
      outcome := Returned;
      if EndsWith(baseName, TxtExt) {
        outcome := RemoveFirstWatchFile(watchDir + Dirname(relativePath), baseName);
      }
    }

    /** The probe loop (file_handler.py:127-134): the extensions are tried
        in order in `dir` and the first file found is removed. */
    method RemoveFirstWatchFile(dir: Path, baseName: string) returns (outcome: Outcome)
      modifies this
      ensures Step(Snapshot(), outcome) == ProbeCandidates(old(Snapshot()), Candidates(dir, Stem(baseName)), baseName)
    {
      var stem := Stem(baseName);
      ghost var candidates := Candidates(dir, stem);
      ghost var before := Snapshot();
      outcome := Returned;
      var i := 0;
      while i < |PossibleExtensions|
        invariant 0 <= i <= |PossibleExtensions|
        invariant disk == before.disk && log == before.log && systemCreatedTxtFiles == before.markers
        invariant forall j :: 0 <= j < i ==> !Exists(before.disk, candidates[j])
      {
        var watchFile := dir + [stem + PossibleExtensions[i]];
        if Exists(disk, watchFile) {
          FirstExistingAt(before.disk, candidates, i);
          var removed := Remove(disk, watchFile);
          if removed.Err? {
            return Raised(removed.error);
          }
          disk := removed.value;
          log := log + WatchFileDeletedLines(baseName, stem, PossibleExtensions[i]);
          return;
        }
        i := i + 1;
      }
      assert FirstExisting(before.disk, candidates).None?;
    }
  }

  // ---------------------------------------------------------------------
  // Lemmas: what every handler keeps
  // ---------------------------------------------------------------------

  lemma SidecarNameIsPlain(stem: string)
    ensures Plain(stem + TxtExt) && EndsWith(stem + TxtExt, TxtExt)
  {
    assert (stem + TxtExt)[|stem|..] == TxtExt;
  }

  /** Writing a sidecar whose raw path begins with the archive root keeps the
      filesystem a tree,
      only ever adds that sidecar as a marker, and only appends to the
      console. */
  lemma CreateSidecarInvariant(archive: Path, s: State, src: Path, txt: Path, baseName: string, currentDate: string)
    requires Good(archive, s)
    requires archive <= txt && EndsWith(Basename(txt), TxtExt)
    ensures var r := CreateSidecar(s, src, txt, baseName, currentDate);
      Good(archive, r.state) && s.markers <= r.state.markers && s.log <= r.state.log
  {
    var made := MakeDirs(s.disk, Dirname(txt));
    if made.Ok? {
      MakeDirsPreservesValid(s.disk, Dirname(txt));
      var written := WriteText(made.value, txt, SidecarText(baseName, currentDate));
      if src != txt && !EndsWith(baseName, TxtExt) && written.Ok? {
        WriteTextPreservesValid(made.value, txt, SidecarText(baseName, currentDate));
        MarkerAdded(archive, s.markers, txt);
      }
    }
  }

  /** `on_created` keeps the filesystem a tree, only ever adds markers, each
      a `.txt` path whose raw components begin with the archive root's, and
      only appends to the console. */
  lemma OnCreatedStepInvariant(watch: Path, archive: Path, nfc: string -> string, s: State, e: Event, currentDate: string)
    requires Good(archive, s)
    ensures var r := OnCreatedStep(watch, archive, nfc, s, e, currentDate);
      Good(archive, r.state) && s.markers <= r.state.markers && s.log <= r.state.log
  {
    if !e.isDirectory {
      var baseName := CreatedBaseName(nfc, e.srcPath);
      var stem := nfc(Stem(baseName));
      var txt := CreatedSidecar(watch, archive, nfc, e.srcPath);
      SidecarShape(archive, Relpath(e.srcPath, watch), stem);
      CreateSidecarInvariant(archive, s, e.srcPath, txt, baseName, currentDate);
    }
  }

  lemma MarkerAdded(archive: Path, markers: set<Path>, txt: Path)
    requires forall m :: m in markers ==> archive <= m && EndsWith(Basename(m), TxtExt)
    requires archive <= txt && EndsWith(Basename(txt), TxtExt)
    ensures forall m :: m in markers + {txt} ==> archive <= m && EndsWith(Basename(m), TxtExt)
  {
  }

  /** Moving a sidecar keeps the filesystem a tree and leaves the markers and
      the console alone; with no old sidecar nothing changes. */
  lemma MoveSidecarInvariant(archive: Path, s: State, oldTxt: Path, newTxt: Path)
    requires Good(archive, s)
    ensures var r := MoveSidecar(s, oldTxt, newTxt);
      Good(archive, r.state) && r.state.markers == s.markers && r.state.log == s.log
    ensures !Exists(s.disk, oldTxt) ==> MoveSidecar(s, oldTxt, newTxt).state == s
  {
    if Exists(s.disk, oldTxt) && MakeDirs(s.disk, Dirname(newTxt)).Ok? {
      MakeDirsPreservesValid(s.disk, Dirname(newTxt));
      var d1 := MakeDirs(s.disk, Dirname(newTxt)).value;
      if Move(d1, oldTxt, newTxt).Ok? {
        MovePreservesValid(d1, oldTxt, newTxt);
      }
    }
  }

  /** `on_moved` keeps the filesystem a tree and leaves the markers and the
      console alone. */
  lemma OnMovedStepInvariant(watch: Path, archive: Path, nfc: string -> string, s: State, e: Event)
    requires Good(archive, s)
    ensures var r := OnMovedStep(watch, archive, nfc, s, e);
      Good(archive, r.state) && r.state.markers == s.markers && r.state.log == s.log
    ensures !Exists(s.disk, MovedSidecar(watch, archive, nfc, e.srcPath)) ==> OnMovedStep(watch, archive, nfc, s, e).state == s
  {
    if !e.isDirectory {
      MoveSidecarInvariant(archive, s, MovedSidecar(watch, archive, nfc, e.srcPath), MovedSidecar(watch, archive, nfc, e.destPath));
    }
  }

  /** The probe over any candidates keeps the filesystem a tree and only
      removes files. */
  lemma ProbeCandidatesInvariant(archive: Path, s: State, candidates: seq<Path>, baseName: string)
    requires Good(archive, s) && |candidates| == |PossibleExtensions|
    ensures var r := ProbeCandidates(s, candidates, baseName);
      && Good(archive, r.state) && r.state.markers == s.markers && s.log <= r.state.log
      && r.state.disk.dirs == s.disk.dirs
      && (forall p :: p in r.state.disk.files ==> p in s.disk.files && r.state.disk.files[p] == s.disk.files[p])
  {
    if FirstExisting(s.disk, candidates).Some? {
      var k := FirstExisting(s.disk, candidates).value;
      if Remove(s.disk, candidates[k]).Ok? {
        RemovePreservesValid(s.disk, candidates[k]);
      }
    }
  }

  /** The probe keeps the filesystem a tree and only removes files. */
  lemma ProbeStepInvariant(watch: Path, archive: Path, nfc: string -> string, s: State, src: Path)
    requires Good(archive, s)
    ensures var r := ProbeStep(watch, nfc, s, src);
      && Good(archive, r.state) && r.state.markers == s.markers && s.log <= r.state.log
      && r.state.disk.dirs == s.disk.dirs
      && (forall p :: p in r.state.disk.files ==> p in s.disk.files && r.state.disk.files[p] == s.disk.files[p])
  {
    var baseName := DeletedBaseName(watch, nfc, src);
    if EndsWith(baseName, TxtExt) {
      ProbeCandidatesInvariant(archive, s, WatchCandidates(watch, src, baseName), baseName);
    }
  }

  /** Removing a mirror directory or a sidecar keeps the filesystem a tree,
      leaves the markers alone, only appends to the console and never creates
      or rewrites a file. */
  lemma RemovalsInvariant(archive: Path, s: State, target: Path, rel: Path, baseName: string)
    requires Good(archive, s)
    ensures var r := RemoveMirror(s, target, rel);
      && Good(archive, r.state) && r.state.markers == s.markers && s.log <= r.state.log
      && (forall p :: p in r.state.disk.files ==> p in s.disk.files && r.state.disk.files[p] == s.disk.files[p])
    ensures var r := RemoveSidecar(s, target, baseName);
      && Good(archive, r.state) && r.state.markers == s.markers && s.log <= r.state.log
      && (forall p :: p in r.state.disk.files ==> p in s.disk.files && r.state.disk.files[p] == s.disk.files[p])
  {
    if Exists(s.disk, target) {
      RemoveTreePreservesValid(s.disk, target);
      if Remove(s.disk, target).Ok? {
        RemovePreservesValid(s.disk, target);
      }
    }
  }

  /** `on_deleted` keeps the filesystem a tree, leaves the markers alone,
      only appends to the console, and never creates or rewrites a file. */
  lemma OnDeletedStepInvariant(watch: Path, archive: Path, nfc: string -> string, s: State, e: Event)
    requires Good(archive, s)
    ensures var r := OnDeletedStep(watch, archive, nfc, s, e);
      && Good(archive, r.state) && r.state.markers == s.markers && s.log <= r.state.log
      && (forall p :: p in r.state.disk.files ==> p in s.disk.files && r.state.disk.files[p] == s.disk.files[p])
  {
    if e.isDirectory {
      RemovalsInvariant(archive, s, ArchiveCounterpart(watch, archive, e.srcPath), Relpath(e.srcPath, watch), "");
    } else {
      var txt := DeletedSidecar(watch, archive, nfc, e.srcPath);
      var baseName := DeletedBaseName(watch, nfc, e.srcPath);
      RemovalsInvariant(archive, s, txt, [], baseName);
      var first := RemoveSidecar(s, txt, baseName);
      if first.outcome.Returned? {
        ProbeStepInvariant(watch, archive, nfc, first.state, e.srcPath);
      }
    }
  }

  // ---------------------------------------------------------------------
  // Lemmas: on_created
  // ---------------------------------------------------------------------

  /** A sidecar path begins with the archive root's components (before `..`
      is resolved) and ends in a plain `.txt` name. */
  lemma SidecarShape(archive: Path, rel: Path, stem: string)
    ensures var txt := SidecarPath(archive, rel, stem);
      && txt != [] && archive <= txt
      && Basename(txt) == stem + TxtExt && Plain(Basename(txt)) && EndsWith(Basename(txt), TxtExt)
  {
    SidecarNameIsPlain(stem);
  }

  /** Writing the sidecar `txt` for a file that is not a `.txt` and not
      itself succeeds exactly when no file stands on the way to the sidecar's
      directory and the sidecar's path is not a directory.  On success the
      sidecar holds the record, it becomes a marker and the added lines are
      printed; on failure no file, marker or line is added. */
  lemma CreateSidecarWrites(s: State, src: Path, txt: Path, baseName: string, currentDate: string)
    requires Disks.Valid(s.disk) && src != txt && !EndsWith(baseName, TxtExt)
    requires txt != [] && Plain(Basename(txt))
    ensures var r := CreateSidecar(s, src, txt, baseName, currentDate);
      && (r.outcome == Returned <==> !FileOnPath(s.disk, Normpath(Dirname(txt))) && Normpath(txt) !in s.disk.dirs)
      && (r.outcome == Returned ==>
            && r.state.disk.files == s.disk.files[Normpath(txt) := SidecarText(baseName, currentDate)]
            && r.state.markers == s.markers + {txt}
            && r.state.log == s.log + AddedLines(baseName))
      && (r.outcome.Raised? ==> r.state.disk.files == s.disk.files && r.state.markers == s.markers && r.state.log == s.log)
  {
    DirnameOfNormpath(Dirname(txt), Basename(txt));
    var q := Normpath(Dirname(txt));
    if !FileOnPath(s.disk, q) {
      var d1 := MakeDirs(s.disk, Dirname(txt)).value;
      assert |Normpath(txt)| > |q|;
      assert Normpath(txt) in d1.dirs <==> Normpath(txt) in s.disk.dirs;
      assert q in d1.dirs;
      if q != [] {
        assert q[..|q|] == q;
      }
      assert q !in d1.files;
    }
  }

  /** For a file that is not a `.txt` and not its own sidecar, `on_created`
      succeeds exactly when no file stands on the way to the sidecar's
      directory and the sidecar's path is not a directory.  On success the
      sidecar holds the record of the name and the date, it is remembered as
      a marker, and the console shows the added lines; on failure no file is
      written, no marker is added and nothing is printed. */
  lemma OnCreatedWritesSidecar(watch: Path, archive: Path, nfc: string -> string, s: State, e: Event, currentDate: string)
    requires Disks.Valid(s.disk) && !e.isDirectory
    requires e.srcPath != CreatedSidecar(watch, archive, nfc, e.srcPath)
    requires !EndsWith(CreatedBaseName(nfc, e.srcPath), TxtExt)
    ensures var r := OnCreatedStep(watch, archive, nfc, s, e, currentDate);
      var txt := CreatedSidecar(watch, archive, nfc, e.srcPath);
      var baseName := CreatedBaseName(nfc, e.srcPath);
      && (r.outcome == Returned <==> !FileOnPath(s.disk, Normpath(Dirname(txt))) && Normpath(txt) !in s.disk.dirs)
      && (r.outcome == Returned ==>
            && Normpath(txt) in r.state.disk.files
            && r.state.disk.files == s.disk.files[Normpath(txt) := SidecarText(baseName, currentDate)]
            && r.state.markers == s.markers + {txt}
            && r.state.log == s.log + AddedLines(baseName))
      && (r.outcome.Raised? ==> r.state.disk.files == s.disk.files && r.state.markers == s.markers && r.state.log == s.log)
  {
    SidecarShape(archive, Relpath(e.srcPath, watch), nfc(Stem(CreatedBaseName(nfc, e.srcPath))));
    CreateSidecarWrites(s, e.srcPath, CreatedSidecar(watch, archive, nfc, e.srcPath), CreatedBaseName(nfc, e.srcPath), currentDate);
  }

  /** The record in a sidecar `on_created` writes reads back as the file's
      name and the date. */
  lemma OnCreatedRecordsName(watch: Path, archive: Path, nfc: string -> string, s: State, e: Event, currentDate: string)
    requires Disks.Valid(s.disk) && !e.isDirectory
    requires e.srcPath != CreatedSidecar(watch, archive, nfc, e.srcPath)
    requires !EndsWith(CreatedBaseName(nfc, e.srcPath), TxtExt)
    requires '\n' !in CreatedBaseName(nfc, e.srcPath) && '\n' !in currentDate
    requires OnCreatedStep(watch, archive, nfc, s, e, currentDate).outcome == Returned
    ensures var r := OnCreatedStep(watch, archive, nfc, s, e, currentDate);
      var record := r.state.disk.files[Normpath(CreatedSidecar(watch, archive, nfc, e.srcPath))];
      && Field(record, "File name: ") == Some(CreatedBaseName(nfc, e.srcPath))
      && Field(record, "Last updated: ") == Some(currentDate)
  {
    OnCreatedWritesSidecar(watch, archive, nfc, s, e, currentDate);
    SidecarRecordsNameAndDate(CreatedBaseName(nfc, e.srcPath), currentDate);
  }

  /** A `.txt` file that is not its own sidecar gets no sidecar: no file is
      written and no marker added; "Ignored" is printed exactly when the call
      succeeds and the path is not a sidecar this handler wrote. */
  lemma CreateSidecarIgnoresTxt(s: State, src: Path, txt: Path, baseName: string, currentDate: string)
    requires src != txt && EndsWith(baseName, TxtExt)
    ensures var r := CreateSidecar(s, src, txt, baseName, currentDate);
      && r.state.disk.files == s.disk.files && r.state.markers == s.markers
      && (r.state.log == s.log || r.state.log == s.log + IgnoredLines(baseName))
      && (r.state.log != s.log <==> r.outcome == Returned && src !in s.markers)
      && (r.outcome == Returned ==> Normpath(Dirname(txt)) in r.state.disk.dirs)
  {
    var r := CreateSidecar(s, src, txt, baseName, currentDate);
    if r.state.log != s.log {
      assert r.state.log == s.log + IgnoredLines(baseName);
    }
  }

  /** `on_created` for a `.txt` file: see `CreateSidecarIgnoresTxt`. */
  lemma OnCreatedIgnoresTxt(watch: Path, archive: Path, nfc: string -> string, s: State, e: Event, currentDate: string)
    requires !e.isDirectory
    requires e.srcPath != CreatedSidecar(watch, archive, nfc, e.srcPath)
    requires EndsWith(CreatedBaseName(nfc, e.srcPath), TxtExt)
    ensures var r := OnCreatedStep(watch, archive, nfc, s, e, currentDate);
      && r.state.disk.files == s.disk.files && r.state.markers == s.markers
      && (r.state.log == s.log || r.state.log == s.log + IgnoredLines(CreatedBaseName(nfc, e.srcPath)))
      && (r.state.log != s.log <==> r.outcome == Returned && e.srcPath !in s.markers)
      && (r.outcome == Returned ==> Normpath(Dirname(CreatedSidecar(watch, archive, nfc, e.srcPath))) in r.state.disk.dirs)
  {
    CreateSidecarIgnoresTxt(s, e.srcPath, CreatedSidecar(watch, archive, nfc, e.srcPath), CreatedBaseName(nfc, e.srcPath), currentDate);
  }

  /** An event for the path that is its own sidecar writes no file, adds no
      marker and prints nothing. */
  lemma OnCreatedSkipsOwnSidecar(watch: Path, archive: Path, nfc: string -> string, s: State, e: Event, currentDate: string)
    requires !e.isDirectory
    requires e.srcPath == CreatedSidecar(watch, archive, nfc, e.srcPath)
    ensures var r := OnCreatedStep(watch, archive, nfc, s, e, currentDate);
      && r.state.disk.files == s.disk.files && r.state.markers == s.markers && r.state.log == s.log
      && (r.outcome == Returned ==> Normpath(Dirname(e.srcPath)) in r.state.disk.dirs)
  {
  }

  /** Once a sidecar is written, a creation event for it, under a `.txt`
      name, prints nothing and writes nothing. */
  lemma SecondCreateIsSilent(s: State, src: Path, txt: Path, baseName: string, currentDate: string,
                             txt2: Path, baseName2: string, later: string)
    requires Disks.Valid(s.disk) && src != txt && !EndsWith(baseName, TxtExt)
    requires txt != [] && Plain(Basename(txt))
    requires CreateSidecar(s, src, txt, baseName, currentDate).outcome == Returned
    requires EndsWith(baseName2, TxtExt)
    ensures var s1 := CreateSidecar(s, src, txt, baseName, currentDate).state;
      var r2 := CreateSidecar(s1, txt, txt2, baseName2, later);
      r2.state.log == s1.log && r2.state.disk.files == s1.disk.files && r2.state.markers == s1.markers
  {
    CreateSidecarWrites(s, src, txt, baseName, currentDate);
  }

  /** After a file is added and its sidecar written, the creation event for
      that sidecar prints nothing and writes nothing, provided normalisation
      keeps the `.txt` ending of the sidecar's name. */
  lemma SidecarEventAfterAddIsSilent(watch: Path, archive: Path, nfc: string -> string, s: State, e: Event,
                                     currentDate: string, later: string)
    requires Disks.Valid(s.disk) && !e.isDirectory
    requires e.srcPath != CreatedSidecar(watch, archive, nfc, e.srcPath)
    requires !EndsWith(CreatedBaseName(nfc, e.srcPath), TxtExt)
    requires OnCreatedStep(watch, archive, nfc, s, e, currentDate).outcome == Returned
    requires EndsWith(nfc(Basename(CreatedSidecar(watch, archive, nfc, e.srcPath))), TxtExt)
    ensures var s1 := OnCreatedStep(watch, archive, nfc, s, e, currentDate).state;
      var r2 := OnCreatedStep(watch, archive, nfc, s1, Event(CreatedSidecar(watch, archive, nfc, e.srcPath), [], false), later);
      r2.state.log == s1.log && r2.state.disk.files == s1.disk.files && r2.state.markers == s1.markers
  {
    var txt := CreatedSidecar(watch, archive, nfc, e.srcPath);
    SidecarShape(archive, Relpath(e.srcPath, watch), nfc(Stem(CreatedBaseName(nfc, e.srcPath))));
    SecondCreateIsSilent(s, e.srcPath, txt, CreatedBaseName(nfc, e.srcPath), currentDate,
                         CreatedSidecar(watch, archive, nfc, txt), CreatedBaseName(nfc, txt), later);
  }

  // ---------------------------------------------------------------------
  // Lemmas: on_moved
  // ---------------------------------------------------------------------

  /** Moving the sidecar `oldTxt`, a file, to `newTxt`, a different path
      that is not a directory and has no file on the way to it, renames it:
      its record arrives at the new path and leaves the old one. */
  lemma MoveSidecarRelocates(s: State, oldTxt: Path, newTxt: Path)
    requires Disks.Valid(s.disk) && newTxt != [] && Plain(Basename(newTxt))
    requires Normpath(oldTxt) in s.disk.files
    requires Normpath(newTxt) !in s.disk.dirs && Normpath(newTxt) != Normpath(oldTxt)
    requires !FileOnPath(s.disk, Dirname(Normpath(newTxt)))
    ensures var r := MoveSidecar(s, oldTxt, newTxt);
      var o, n := Normpath(oldTxt), Normpath(newTxt);
      && r.outcome == Returned
      && r.state.disk.files == (s.disk.files - {o})[n := s.disk.files[o]]
  {
    DirnameOfNormpath(Dirname(newTxt), Basename(newTxt));
    MakeDirsPreservesValid(s.disk, Dirname(newTxt));
    var d1 := MakeDirs(s.disk, Dirname(newTxt)).value;
    assert |Normpath(newTxt)| > |Normpath(Dirname(newTxt))|;
    assert Normpath(newTxt) !in d1.dirs;
    MoveFileContents(d1, oldTxt, newTxt);
  }

  /** When the old sidecar is a file, the new sidecar's path is free of
      directories and no file stands on the way to it, `on_moved` renames the
      sidecar: its record arrives at the new path and leaves the old one. */
  lemma OnMovedRelocatesSidecar(watch: Path, archive: Path, nfc: string -> string, s: State, e: Event)
    requires Disks.Valid(s.disk) && !e.isDirectory
    requires Normpath(MovedSidecar(watch, archive, nfc, e.srcPath)) in s.disk.files
    requires Normpath(MovedSidecar(watch, archive, nfc, e.destPath)) !in s.disk.dirs
    requires Normpath(MovedSidecar(watch, archive, nfc, e.destPath)) != Normpath(MovedSidecar(watch, archive, nfc, e.srcPath))
    requires !FileOnPath(s.disk, Dirname(Normpath(MovedSidecar(watch, archive, nfc, e.destPath))))
    ensures var r := OnMovedStep(watch, archive, nfc, s, e);
      var o := Normpath(MovedSidecar(watch, archive, nfc, e.srcPath));
      var n := Normpath(MovedSidecar(watch, archive, nfc, e.destPath));
      && r.outcome == Returned
      && r.state.disk.files == (s.disk.files - {o})[n := s.disk.files[o]]
  {
    var rel := Relpath(e.destPath, watch);
    SidecarShape(archive, rel, nfc(Stem(Basename(rel))));
    MoveSidecarRelocates(s, MovedSidecar(watch, archive, nfc, e.srcPath), MovedSidecar(watch, archive, nfc, e.destPath));
  }

  /** Moving a sidecar onto itself keeps every file; it succeeds exactly when
      no file stands on the way to its directory. */
  lemma MoveSidecarOntoItself(s: State, txt: Path)
    requires Exists(s.disk, txt)
    ensures var r := MoveSidecar(s, txt, txt);
      r.state.disk.files == s.disk.files
      && (r.outcome == Returned <==> !FileOnPath(s.disk, Normpath(Dirname(txt))))
  {
    if !FileOnPath(s.disk, Normpath(Dirname(txt))) {
      var d1 := MakeDirs(s.disk, Dirname(txt)).value;
      assert Exists(d1, txt);
    }
  }

  /** A rename that keeps the stem and the directory (`clip.mp4` to
      `clip.mov`) leaves the sidecar where it is. */
  lemma OnMovedSameSidecarKeepsFiles(watch: Path, archive: Path, nfc: string -> string, s: State, e: Event)
    requires !e.isDirectory
    requires MovedSidecar(watch, archive, nfc, e.srcPath) == MovedSidecar(watch, archive, nfc, e.destPath)
    requires Exists(s.disk, MovedSidecar(watch, archive, nfc, e.srcPath))
    ensures var r := OnMovedStep(watch, archive, nfc, s, e);
      r.state.disk.files == s.disk.files
      && (r.outcome == Returned <==> !FileOnPath(s.disk, Normpath(Dirname(MovedSidecar(watch, archive, nfc, e.destPath)))))
  {
    MoveSidecarOntoItself(s, MovedSidecar(watch, archive, nfc, e.srcPath));
  }

  // ---------------------------------------------------------------------
  // Lemmas: on_deleted
  // ---------------------------------------------------------------------

  /** Deleting a directory other than the watch root or one of its
      ancestors, whose mirror is a directory, removes the mirror and
      everything below it and nothing else. */
  lemma OnDeletedDirectoryClearsMirror(watch: Path, archive: Path, nfc: string -> string, s: State, e: Event)
    requires Disks.Valid(s.disk) && e.isDirectory
    requires !(Normpath(e.srcPath) <= Normpath(watch))
    requires Normpath(ArchiveCounterpart(watch, archive, e.srcPath)) in s.disk.dirs
    ensures var r := OnDeletedStep(watch, archive, nfc, s, e);
      var m := Normpath(ArchiveCounterpart(watch, archive, e.srcPath));
      && r.outcome == Returned
      && (forall p :: p in r.state.disk.files <==> p in s.disk.files && !(m <= p))
      && (forall p :: p in r.state.disk.dirs <==> p in s.disk.dirs && !(m <= p))
      && r.state.log == s.log + DirectoryDeletedLines(Relpath(e.srcPath, watch))
  {
    RelpathEndsInDots(e.srcPath, watch);
    MirrorEnding(archive, Relpath(e.srcPath, watch));
  }

  /** Deleting the watch root (`relpath` is `.`) or an ancestor of it
      (`relpath` ends in `..`) empties its mirror but keeps the mirror
      directory itself: the final `rmdir` raises, so nothing is printed. */
  lemma OnDeletedWatchRootEmptiesMirror(watch: Path, archive: Path, nfc: string -> string, s: State, e: Event)
    requires Disks.Valid(s.disk) && e.isDirectory
    requires Normpath(e.srcPath) <= Normpath(watch)
    requires Normpath(ArchiveCounterpart(watch, archive, e.srcPath)) in s.disk.dirs
    ensures var r := OnDeletedStep(watch, archive, nfc, s, e);
      var m := Normpath(ArchiveCounterpart(watch, archive, e.srcPath));
      && r.outcome == Raised(if Normpath(e.srcPath) == Normpath(watch) then InvalidArgument else NotFound)
      && (forall p :: p in r.state.disk.files <==> p in s.disk.files && !(m <= p && p != m))
      && (forall p :: p in r.state.disk.dirs <==> p in s.disk.dirs && !(m <= p && p != m))
      && r.state.log == s.log && r.state.markers == s.markers
  {
    RelpathEndsInDots(e.srcPath, watch);
    MirrorEnding(archive, Relpath(e.srcPath, watch));
  }

  /** A directory deletion whose mirror is not a directory changes nothing:
      with no mirror the handler returns, and a file in its place makes
      `rmtree` raise before it removes anything. */
  lemma OnDeletedDirectoryWithoutMirror(watch: Path, archive: Path, nfc: string -> string, s: State, e: Event)
    requires e.isDirectory
    requires Normpath(ArchiveCounterpart(watch, archive, e.srcPath)) !in s.disk.dirs
    ensures var r := OnDeletedStep(watch, archive, nfc, s, e);
      && r.state == s
      && (r.outcome == Returned <==> Normpath(ArchiveCounterpart(watch, archive, e.srcPath)) !in s.disk.files)
  {
  }

  /** The mirror of a directory ends in what its relative path ends in. */
  lemma MirrorEnding(archive: Path, rel: Path)
    requires rel != []
    ensures EndsInDots(archive + rel) == EndsInDots(rel)
    ensures (archive + rel)[|archive + rel| - 1] == rel[|rel| - 1]
  {
  }

  /** The probe leaves alone every file that is not one of its candidates. */
  lemma ProbeCandidatesKeep(s: State, candidates: seq<Path>, baseName: string, p: Path)
    requires |candidates| == |PossibleExtensions| && p in s.disk.files
    requires forall k :: 0 <= k < |candidates| ==> p != Normpath(candidates[k])
    ensures var r := ProbeCandidates(s, candidates, baseName);
      p in r.state.disk.files && r.state.disk.files[p] == s.disk.files[p] && r.state.disk.dirs == s.disk.dirs
  {
    match FirstExisting(s.disk, candidates)
    case None =>
    case Some(k) =>
      assert p != Normpath(candidates[k]);
  }

  /** The reverse probe leaves alone every file that is not one of its
      candidates. */
  lemma ProbeKeeps(watch: Path, nfc: string -> string, s: State, src: Path, p: Path)
    requires p in s.disk.files
    requires EndsWith(DeletedBaseName(watch, nfc, src), TxtExt) ==>
      forall k :: 0 <= k < |PossibleExtensions| ==>
        p != Normpath(WatchCandidates(watch, src, DeletedBaseName(watch, nfc, src))[k])
    ensures var r := ProbeStep(watch, nfc, s, src);
      p in r.state.disk.files && r.state.disk.files[p] == s.disk.files[p]
  {
    var baseName := DeletedBaseName(watch, nfc, src);
    if EndsWith(baseName, TxtExt) {
      ProbeCandidatesKeep(s, WatchCandidates(watch, src, baseName), baseName, p);
    }
  }

  /** A sidecar that is a file is removed, and the removal is printed. */
  lemma RemoveSidecarOfFile(archive: Path, s: State, txt: Path, baseName: string)
    requires Good(archive, s) && Normpath(txt) in s.disk.files
    ensures var r := RemoveSidecar(s, txt, baseName);
      && r.outcome == Returned && Good(archive, r.state) && r.state.markers == s.markers
      && r.state.disk.files == s.disk.files - {Normpath(txt)}
      && r.state.log == s.log + FileDeletedLines(baseName)
  {
    RemovePreservesValid(s.disk, txt);
  }

  /** Deleting a file whose sidecar is a file removes the sidecar and prints
      that it did; whatever the probe then does, it only removes files. */
  lemma OnDeletedRemovesSidecar(watch: Path, archive: Path, nfc: string -> string, s: State, e: Event)
    requires Good(archive, s) && !e.isDirectory
    requires Normpath(DeletedSidecar(watch, archive, nfc, e.srcPath)) in s.disk.files
    ensures var r := OnDeletedStep(watch, archive, nfc, s, e);
      var t := Normpath(DeletedSidecar(watch, archive, nfc, e.srcPath));
      && t !in r.state.disk.files
      && s.log + FileDeletedLines(DeletedBaseName(watch, nfc, e.srcPath)) <= r.state.log
      && (forall p :: p in r.state.disk.files ==> p in s.disk.files && r.state.disk.files[p] == s.disk.files[p])
  {
    var txt := DeletedSidecar(watch, archive, nfc, e.srcPath);
    var baseName := DeletedBaseName(watch, nfc, e.srcPath);
    RemoveSidecarOfFile(archive, s, txt, baseName);
    ProbeStepInvariant(watch, archive, nfc, RemoveSidecar(s, txt, baseName).state, e.srcPath);
  }

  /** The probe removes at most one file, one of its candidates. */
  lemma ProbeRemovesAtMostOne(s: State, candidates: seq<Path>, baseName: string)
    requires |candidates| == |PossibleExtensions|
    ensures var r := ProbeCandidates(s, candidates, baseName);
      || r.state.disk.files == s.disk.files
      || exists k :: 0 <= k < |candidates| && r.state.disk.files == s.disk.files - {Normpath(candidates[k])}
  {
    match FirstExisting(s.disk, candidates)
    case None =>
    case Some(k) =>
      if Remove(s.disk, candidates[k]).Ok? {
        assert ProbeCandidates(s, candidates, baseName).state.disk.files == s.disk.files - {Normpath(candidates[k])};
      }
  }

  /** The reverse probe removes at most one file, and that file lies beside
      the deleted path, not in the watch tree the path was mapped from. */
  lemma ProbeRemovesBesideDeleted(watch: Path, nfc: string -> string, s: State, src: Path)
    requires !(Normpath(src) <= Normpath(watch))
    ensures var r := ProbeStep(watch, nfc, s, src);
      var baseName := DeletedBaseName(watch, nfc, src);
      || r.state.disk.files == s.disk.files
      || exists k :: 0 <= k < |PossibleExtensions| &&
           r.state.disk.files == s.disk.files - {Dirname(Normpath(src)) + [Stem(baseName) + PossibleExtensions[k]]}
  {
    var baseName := DeletedBaseName(watch, nfc, src);
    var candidates := WatchCandidates(watch, src, baseName);
    var r := ProbeStep(watch, nfc, s, src);
    if EndsWith(baseName, TxtExt) {
      ProbeRemovesAtMostOne(s, candidates, baseName);
      if r.state.disk.files != s.disk.files {
        var k :| 0 <= k < |candidates| && r.state.disk.files == s.disk.files - {Normpath(candidates[k])};
        ProbeBesideDeletedFile(watch, src, baseName, k);
      }
    }
  }

  /** First match wins: when the `.mp4` candidate is a file, the probe
      removes it and nothing else, whichever later candidates exist. */
  lemma ProbePrefersFirstExtension(watch: Path, nfc: string -> string, s: State, src: Path)
    requires Disks.Valid(s.disk)
    requires EndsWith(DeletedBaseName(watch, nfc, src), TxtExt)
    requires Normpath(WatchCandidates(watch, src, DeletedBaseName(watch, nfc, src))[0]) in s.disk.files
    ensures var r := ProbeStep(watch, nfc, s, src);
      var baseName := DeletedBaseName(watch, nfc, src);
      && r.outcome == Returned
      && r.state.disk.files == s.disk.files - {Normpath(WatchCandidates(watch, src, baseName)[0])}
      && r.state.log == s.log + WatchFileDeletedLines(baseName, Stem(baseName), ".mp4")
  {
    var candidates := WatchCandidates(watch, src, DeletedBaseName(watch, nfc, src));
    assert FirstExisting(s.disk, candidates) == Some(0);
  }

  /** Removing a sidecar leaves every other file and every directory
      alone. */
  lemma RemoveSidecarKeeps(s: State, txt: Path, baseName: string, p: Path)
    requires p in s.disk.files && p != Normpath(txt)
    ensures var r := RemoveSidecar(s, txt, baseName);
      p in r.state.disk.files && r.state.disk.files[p] == s.disk.files[p] && r.state.disk.dirs == s.disk.dirs
  {
  }

  /** Deleting a file removes nothing but its sidecar and the probe's
      candidates, and no directory. */
  lemma OnDeletedFileRemovesOnly(watch: Path, archive: Path, nfc: string -> string, s: State, e: Event, p: Path)
    requires !e.isDirectory && p in s.disk.files
    requires p != Normpath(DeletedSidecar(watch, archive, nfc, e.srcPath))
    requires EndsWith(DeletedBaseName(watch, nfc, e.srcPath), TxtExt) ==>
      forall k :: 0 <= k < |PossibleExtensions| ==>
        p != Normpath(WatchCandidates(watch, e.srcPath, DeletedBaseName(watch, nfc, e.srcPath))[k])
    ensures var r := OnDeletedStep(watch, archive, nfc, s, e);
      && p in r.state.disk.files && r.state.disk.files[p] == s.disk.files[p]
      && r.state.disk.dirs == s.disk.dirs
  {
    var txt := DeletedSidecar(watch, archive, nfc, e.srcPath);
    var baseName := DeletedBaseName(watch, nfc, e.srcPath);
    var candidates := WatchCandidates(watch, e.srcPath, baseName);
    DeleteFileKeeps(s, txt, baseName, EndsWith(baseName, TxtExt), candidates, p);
  }

  /** The file branch of `on_deleted`, its paths given, keeps every file that
      is neither the sidecar nor a candidate, and every directory. */
  lemma DeleteFileKeeps(s: State, txt: Path, baseName: string, probe: bool, candidates: seq<Path>, p: Path)
    requires |candidates| == |PossibleExtensions| && p in s.disk.files && p != Normpath(txt)
    requires probe ==> forall k :: 0 <= k < |candidates| ==> p != Normpath(candidates[k])
    ensures var first := RemoveSidecar(s, txt, baseName);
      var r := if first.outcome.Raised? || !probe then first else ProbeCandidates(first.state, candidates, baseName);
      p in r.state.disk.files && r.state.disk.files[p] == s.disk.files[p] && r.state.disk.dirs == s.disk.dirs
  {
    RemoveSidecarKeeps(s, txt, baseName, p);
    var first := RemoveSidecar(s, txt, baseName);
    if first.outcome.Returned? && probe {
      ProbeCandidatesKeep(first.state, candidates, baseName, p);
    }
  }

  /** With the watch and archive roots side by side (`parent/w` and
      `parent/a`), deleting a file from the archive tree never removes or
      alters a file in the watch tree: the sidecar and every probe candidate
      are computed beside the deleted file. */
  lemma SiblingArchiveDeletionSparesWatchTree(parent: Path, w: string, a: string, x: Path,
                                              nfc: string -> string, s: State, e: Event)
    requires Normal(parent) && Plain(w) && Plain(a) && w != a && Normal(x) && x != []
    requires !e.isDirectory && e.srcPath == parent + [a] + x
    ensures var r := OnDeletedStep(parent + [w], parent + [a], nfc, s, e);
      forall p :: p in s.disk.files && parent + [w] <= p ==> p in r.state.disk.files && r.state.disk.files[p] == s.disk.files[p]
  {
    var W, A := parent + [w], parent + [a];
    var src := e.srcPath;
    var txt := DeletedSidecar(W, A, nfc, src);
    var candidates := WatchCandidates(W, src, DeletedBaseName(W, nfc, src));
    SiblingSidecarsStayInArchive(parent, w, a, x, nfc);
    forall p | p in s.disk.files && W <= p
      ensures p in OnDeletedStep(W, A, nfc, s, e).state.disk.files
      ensures OnDeletedStep(W, A, nfc, s, e).state.disk.files[p] == s.disk.files[p]
    {
      assert p != Normpath(txt) by {
        assert p[|parent|] == w && Normpath(txt)[|parent|] == a;
      }
      forall k | 0 <= k < |PossibleExtensions| ensures p != Normpath(candidates[k]) {
        SiblingProbeStaysInArchive(parent, w, a, x, nfc, k);
      }
      OnDeletedFileRemovesOnly(W, A, nfc, s, e, p);
    }
  }

  /** A file added below the watch root and then deleted leaves no sidecar
      behind: `on_deleted` computes the same sidecar `on_created` wrote. */
  lemma CreateThenDeleteRemovesSidecar(watch: Path, archive: Path, nfc: string -> string, s: State,
                                       dir: Path, name: string, currentDate: string)
    requires Normal(watch) && Normal(dir) && Plain(name)
    requires Good(archive, s)
    requires var e := Event(watch + dir + [name], [], false);
      && e.srcPath != CreatedSidecar(watch, archive, nfc, e.srcPath)
      && !EndsWith(nfc(name), TxtExt)
      && OnCreatedStep(watch, archive, nfc, s, e, currentDate).outcome == Returned
    ensures var e := Event(watch + dir + [name], [], false);
      var s1 := OnCreatedStep(watch, archive, nfc, s, e, currentDate).state;
      var sidecar := Normpath(archive + dir + [nfc(Stem(nfc(name))) + TxtExt]);
      && sidecar in s1.disk.files
      && sidecar !in OnDeletedStep(watch, archive, nfc, s1, e).state.disk.files
  {
    var e := Event(watch + dir + [name], [], false);
    SidecarOfWatchFile(watch, archive, nfc, dir, name);
    OnCreatedWritesSidecar(watch, archive, nfc, s, e, currentDate);
    OnCreatedStepInvariant(watch, archive, nfc, s, e, currentDate);
    var s1 := OnCreatedStep(watch, archive, nfc, s, e, currentDate).state;
    OnDeletedRemovesSidecar(watch, archive, nfc, s1, e);
  }
}
