# source2txt `FileHandler` in Dafny

This project models `FileHandler` (file_handler.py), the event handler of
source2txt, and proves properties of the model. The handler keeps an archive
tree of `.txt` sidecars in step with a watched tree of media files. For every
file created below the watch root it writes a sidecar at the same relative
directory under the archive root. The sidecar is named after the file's stem
and holds a small record: the file name, an empty link, the date and an empty
"Other" field. When a file is moved, its sidecar is moved. When a file is
deleted, its sidecar is deleted. A directory deletion removes the mirrored
directory. When a `.txt` is deleted, the handler tries 15 media extensions in
a fixed order and removes the first matching file it finds.

The model has four modules:

- `Paths` (paths.dfy) is POSIX path arithmetic on paths given as sequences of
  components, all absolute: `normpath`, `relpath`, `dirname`, `basename`,
  `splitext` and `endswith`.
- `Disks` (disk.dfy) is the filesystem as a value: a map from normalised path
  to contents, plus a set of directories. It covers `os.makedirs(exist_ok=True)`,
  writing a file, `os.remove`, `shutil.rmtree` and `shutil.move`. Each is a
  function that returns the new filesystem or the exception it raises;
  `rmtree` can raise after it has removed part of the tree, and returns both.
  Each is proved to keep the filesystem a tree.
- `Mirror` (mirror.dfy) holds the pure parts:
  - the path every handler derives from an event path;
  - the sidecar record;
  - the printed lines;
  - the extension list and the probe's specification.
- `Handler` (file_handler.dfy) is the class `FileHandler`. Its fields are the
  two roots, the normalisation function, the marker set
  `system_created_txt_files`, the filesystem and the printed lines. The
  three handlers are methods that change these fields. Each method is proved
  equal to a step function on the whole state. The handlers' properties are
  lemmas about the step functions. The extension probe of `on_deleted` is a
  loop, proved against `FirstExisting`.

Raw event paths may contain `..` and `.` components. The guard at
file_handler.py:36 and the marker lookup at file_handler.py:42 compare raw
path strings, so they are sequence equality here. Existence checks and the
filesystem use the lexically normalised path.

Points where the code's behaviour may surprise a reader:

- `on_moved` ignores an event only when the event itself is flagged as a
  directory (file_handler.py:74). It does not look at either endpoint.
- Every handler computes `relpath` against the watch root, even for an event
  in the archive tree. The reverse probe therefore looks beside the deleted
  `.txt` (`Mirror.ProbeBesideDeletedFile`, `Handler.ProbeRemovesBesideDeleted`),
  not in the watch tree. With the two roots side by side, as in the shipped
  layout and the test fixtures, deleting a sidecar never removes or alters a
  file in the watch tree (`Handler.SiblingArchiveDeletionSparesWatchTree`).
- The marker set holds sidecar paths, not source paths. A second creation
  event for the same media file rewrites its sidecar and prints "File added"
  again (`Handler.OnCreatedWritesSidecar` holds for every state).
- Deleting a watched file whose name ends in `.txt` also runs the probe.
- The sidecar path is the archive root joined with a `relpath` that may begin
  with `..`. When the two roots are at different depths, a file created in the
  archive tree gets a sidecar outside the archive: with watch root `/y/w` and
  archive root `/x/a/b`, the file `/x/a/b/f.mp4` has `relpath`
  `../../x/a/b/f.mp4` and its sidecar is `/x/x/a/b/f.txt`
  (`Mirror.SidecarOutsideArchive`). Markers and sidecar
  paths therefore begin with the archive root's components only before `..`
  is resolved. With roots side by side, as in the shipped layout, the sidecar
  stays in the archive (`Mirror.SiblingSidecarsStayInArchive`).
- A directory event for the watch root itself, or for one of its ancestors,
  gives a `relpath` of `.` or one ending in `..`. `shutil.rmtree` then empties
  the mirror and raises on the final `rmdir`, so the mirror directory stays
  and no notice is printed (`Handler.OnDeletedWatchRootEmptiesMirror`).

## Model

| member | source | states |
|---|---|---|
| `Paths.Normpath` | file_handler.py:86 | the lexical normal form an existence check uses has only plain components and is no longer than the path |
| `Paths.Dirname` | file_handler.py:30 | a non-empty path is its dirname followed by its basename |
| `Paths.CommonPrefixLength` | file_handler.py:25 | the two paths agree before the returned length and differ at it |
| `Paths.Relpath` | file_handler.py:25 | `relpath` is never empty (`.` for the start itself) |
| `Paths.Splitext` | file_handler.py:27 | stem and extension concatenate to the name; the extension is empty or begins with its only dot; a split leaves a stem that is not all dots |
| `Paths.Basename` | file_handler.py:26 | `os.path.basename`: the last component, empty for the root (definition) |
| `Paths.Stem` | file_handler.py:27 | `os.path.splitext(name)[0]` (definition) |
| `Paths.EndsWith` | file_handler.py:40 | `str.endswith`: the last characters are the suffix (definition) |
| `Paths.NormpathOfNormal` | file_handler.py:86 | `normpath` leaves a normal path alone |
| `Paths.NormpathDropsCurrent` | file_handler.py:30 | an empty or `.` component leaves the normalised path unchanged |
| `Paths.NormpathDotsAtRoot` | file_handler.py:25 | any number of `..` at the root stays at the root |
| `Paths.NormpathAppend` | file_handler.py:30 | normalising a prefix before joining does not change the normalised join |
| `Paths.NormpathAppendNormal` | file_handler.py:30 | plain components joined to a path survive normalisation unchanged |
| `Paths.NormpathClimb` | file_handler.py:25 | `k` `..` components remove the last `k` components |
| `Paths.ClimbThenDescend` | file_handler.py:25 | climbing from the start to the common prefix and descending along the path reaches the path |
| `Paths.RelpathJoinRoundTrip` | file_handler.py:25 | joining `relpath(p, start)` to `start` and normalising gives `p` normalised |
| `Paths.RelpathBelow` | file_handler.py:25 | for a path below the root, `relpath` is exactly the part below the root |
| `Paths.DirnameOfNormpath` | file_handler.py:33 | the normalised parent of `p/c` is `p` normalised, for a plain `c` |
| `Paths.SplitextOfAppend` | file_handler.py:27 | `splitext(s + e)` gives back `s` and `e` for an extension with one leading dot |
| `Paths.StemOfTxt` | file_handler.py:124 | a `.txt` name that is not all dots is its stem followed by `.txt` |
| `Paths.RelpathEndsInDots` | file_handler.py:94-95 | `relpath` ends in `.` or `..` exactly when the path is the start or one of its ancestors, and is `.` exactly for the start itself |
| `Disks.MakeDirs` | file_handler.py:33 | succeeds exactly when no file lies on the way; then files are unchanged and the directories gain exactly the path and its ancestors; otherwise `FileExists` when the path itself is a file and `NotADirectory` when an ancestor is |
| `Disks.WriteText` | file_handler.py:53-61 | succeeds exactly when the path is not a directory and its parent is a directory; then the file holds the text and nothing else changes |
| `Disks.Exists` | file_handler.py:86 | `os.path.exists`: the normalised path is a file or a directory (definition) |
| `Disks.Remove` | file_handler.py:112 | succeeds exactly on a file; removes that file only |
| `Disks.RemoveTree` | file_handler.py:98 | completes exactly on a directory whose raw last component is not `.` or `..`, removing it and everything below it and keeping the rest with their contents; on a directory reached through `.` or `..` it removes everything strictly below and keeps the directory, then raises `InvalidArgument` (`.`) or `NotFound` (`..`); on a file or a missing path it changes nothing and raises `NotADirectory` or `NotFound` |
| `Disks.Relocate` | file_handler.py:88 | every file below the source arrives below the target with its contents; files outside both are kept |
| `Disks.Move` | file_handler.py:88 | a missing source raises `NotFound`; a move onto itself changes nothing; a success between distinct paths relocates to the target (inside a destination directory under the source's name); `DestinationExists` exactly when that name is taken |
| `Disks.MoveTarget` | file_handler.py:88 | where `shutil.move` puts the source: inside a destination directory under the source's base name, otherwise the destination itself (definition) |
| `Disks.MakeDirsPreservesValid` | file_handler.py:33 | `makedirs` keeps the filesystem a tree |
| `Disks.WriteTextPreservesValid` | file_handler.py:53 | writing a file keeps the filesystem a tree |
| `Disks.RemovePreservesValid` | file_handler.py:112 | removing a file keeps the filesystem a tree |
| `Disks.RemoveTreePreservesValid` | file_handler.py:98 | `rmtree` keeps the filesystem a tree, whether it completes or raises part way |
| `Disks.Prune` | file_handler.py:98 | exactly the entries not below the path (strictly, or also the path itself) are kept, with their contents |
| `Disks.PrunePreservesValid` | file_handler.py:98 | removing everything below a path keeps the filesystem a tree |
| `Disks.RelocateMembership` | file_handler.py:88 | after a relocation an entry exists exactly when it was kept or is the image of an entry below the source |
| `Disks.RelocatePreservesValid` | file_handler.py:88 | a relocation the move allows keeps the filesystem a tree |
| `Disks.MovePreservesValid` | file_handler.py:88 | every successful `shutil.move` keeps the filesystem a tree |
| `Disks.MakeDirsExistingIsNoop` | file_handler.py:33 | `makedirs(exist_ok=True)` on an existing directory changes nothing |
| `Disks.RelocateFile` | file_handler.py:88 | relocating a file onto a non-directory renames it and leaves the directories alone |
| `Disks.RerootInjective` | file_handler.py:88 | two paths below the move's source that land on the same path below the target were the same path |
| `Disks.MoveFileContents` | file_handler.py:88 | moving a file onto a free or file path in an existing directory yields exactly the old files minus the source plus the destination holding the source's contents |
| `Mirror.WatchCandidates` | file_handler.py:121-128 | one candidate path per extension of the list |
| `Mirror.CreatedSidecar` | file_handler.py:25-30 | `txt_path` of `on_created`: the archive root, the directory of `relpath`, and the normalised stem of the normalised base name plus `.txt` (definition) |
| `Mirror.SidecarPath` | file_handler.py:30 | `os.path.join(archive_dir, dirname(relpath), stem + ".txt")`, the join shared by file_handler.py:30, 83-84 and 110 (definition) |
| `Mirror.CreatedBaseName` | file_handler.py:26 | `base_name` of `on_created`: the normalised last component of the event path (definition) |
| `Mirror.MovedSidecar` | file_handler.py:77-84 | `old_txt_path` / `new_txt_path` of `on_moved`: the base name is taken from `relpath` and only the stem is normalised (definition) |
| `Mirror.DeletedBaseName` | file_handler.py:105-106 | `base_name` of `on_deleted`: the normalised last component of `relpath` (definition) |
| `Mirror.DeletedSidecar` | file_handler.py:105-110 | `txt_path` of `on_deleted`, built from `DeletedBaseName` (definition) |
| `Mirror.ArchiveCounterpart` | file_handler.py:94-95 | `archive_dir_path`: the archive root joined with `relpath` (definition) |
| `Mirror.Candidates` | file_handler.py:121-128 | one path per extension of `PossibleExtensions` (the fifteen of the source, in its order), each the stem followed by that extension in the given directory |
| `Mirror.FirstExisting` | file_handler.py:127-134 | the index of the first candidate that exists, all earlier ones missing; none exactly when no candidate exists |
| `Mirror.FirstExistingAt` | file_handler.py:127-134 | a candidate that exists with no earlier candidate existing is the one the probe picks |
| `Mirror.SidecarOfWatchFile` | file_handler.py:25-30 | for `watch/dir/name`, the three handlers compute the sidecar at `archive/dir/<stem>.txt` |
| `Mirror.SidecarIgnoresExtension` | file_handler.py:27-30 | two names with the same stem in one directory share one sidecar |
| `Mirror.ClipCollision` | file_handler.py:27-30 | `clip.mp4` and `clip.mov` both map to `clip.txt` |
| `Mirror.OwnSidecarIffSameRoot` | file_handler.py:36 | a watched file is its own sidecar exactly when the roots coincide and the name is its own sidecar name |
| `Mirror.BesideEventPath` | file_handler.py:128 | `watch/dirname(relpath(p, watch))/c` normalises to the directory of `p` followed by `c`, unless `p` is the watch root or above it |
| `Mirror.ProbeBesideDeletedFile` | file_handler.py:128 | every probe candidate lies beside the deleted path |
| `Mirror.SiblingRelpath` | file_handler.py:105 | with roots `parent/w` and `parent/a`, an archive path's `relpath` climbs out through `..` into `a` |
| `Mirror.SiblingSidecarsStayInArchive` | file_handler.py:105-110 | with sibling roots, the sidecar computed for an archive file lies beside that file in the archive tree |
| `Mirror.SidecarOutsideArchive` | file_handler.py:25-30 | with watch root `y/w` and archive root `x/a/b`, the sidecar `on_created` computes for `x/a/b/f.mp4` resolves to `x/x/a/b/f.txt`, outside the archive |
| `Mirror.SiblingProbeStaysInArchive` | file_handler.py:124-128 | with sibling roots, every probe candidate for an archive file lies in the archive tree, never in the watch tree |
| `Mirror.SiblingGuardNeverFires` | file_handler.py:36 | with sibling roots, an archive file is never equal to its computed sidecar path |
| `Mirror.LinesOfJoin` | file_handler.py:54-61 | splitting at newlines undoes joining lines that contain none |
| `Mirror.SidecarLines` | file_handler.py:54-61 | the written record reads back as its eight lines |
| `Mirror.RecordFileName` | file_handler.py:54 | the record's "File name: " field holds exactly the base name |
| `Mirror.RecordLink` | file_handler.py:54-56 | the record's "Link: " field is empty |
| `Mirror.RecordDate` | file_handler.py:54-58 | the record's "Last updated: " field holds exactly the date |
| `Mirror.RecordOther` | file_handler.py:54-60 | the record's "Other:" field is empty |
| `Mirror.SidecarRecordsNameAndDate` | file_handler.py:54-61 | the sidecar text read back gives the file name and date it was written with, with link and other blank |
| `Mirror.SidecarRecord` | file_handler.py:54-61 | the eight lines of the record: name, blank, `Link: `, 24 spaces, date, blank, `Other:`, final newline (definition) |
| `Mirror.SidecarText` | file_handler.py:53-61 | the written text: the record's lines joined with newlines (definition) |
| `Mirror.IgnoredLines` | file_handler.py:44-45 | the "Ignored .txt file" line and the border (definition) |
| `Mirror.AddedLines` | file_handler.py:67-69 | the "File added" lines and the border (definition) |
| `Mirror.DirectoryDeletedLines` | file_handler.py:99-101 | the "Directory deleted" lines, with the relative path, and the border (definition) |
| `Mirror.FileDeletedLines` | file_handler.py:113-115 | the "File deleted" lines and the border (definition) |
| `Mirror.WatchFileDeletedLines` | file_handler.py:131-133 | the "File deleted" and "Watch file also deleted" lines and the border (definition) |
| `Handler.FileHandler.constructor` | file_handler.py:12-17 | the handler starts with the given roots and an empty marker set |
| `Handler.CreateSidecar` | file_handler.py:33-69 | the rest of `on_created` on the state once the paths are known: makedirs, the own-sidecar guard, the `.txt` branch, the write, the marker and the lines (definition; see its lemmas) |
| `Handler.OnCreatedStep` | file_handler.py:20-69 | `on_created` on the whole state (definition; see its lemmas) |
| `Handler.MoveSidecar` | file_handler.py:86-88 | the end of `on_moved` on the state (definition; see its lemmas) |
| `Handler.OnMovedStep` | file_handler.py:73-88 | `on_moved` on the whole state (definition; see its lemmas) |
| `Handler.ProbeCandidates` | file_handler.py:127-134 | the probe loop as a function: remove the `FirstExisting` candidate and print its lines (definition; see its lemmas) |
| `Handler.ProbeStep` | file_handler.py:119-134 | the probe runs only for a base name ending in `.txt` (definition; see its lemmas) |
| `Handler.RemoveMirror` | file_handler.py:97-101 | the directory branch of `on_deleted`: `rmtree` of an existing mirror, then the notice (definition; see its lemmas) |
| `Handler.RemoveSidecar` | file_handler.py:111-115 | the removal of an existing sidecar, then the notice (definition; see its lemmas) |
| `Handler.OnDeletedStep` | file_handler.py:91-134 | `on_deleted` on the whole state; the probe runs only after the sidecar removal returned (definition; see its lemmas) |
| `Handler.FileHandler.OnCreated` | file_handler.py:20-69 | the new state and outcome are `OnCreatedStep` of the old state; the filesystem stays a tree; a directory event changes nothing |
| `Handler.FileHandler.CreateSidecarFile` | file_handler.py:33-69 | making the directory, the two guards, the write, the marker and the lines change the state exactly as `CreateSidecar` says |
| `Handler.FileHandler.OnMoved` | file_handler.py:73-88 | the new state and outcome are `OnMovedStep` of the old state; the filesystem stays a tree; a directory event changes nothing |
| `Handler.FileHandler.MoveSidecarFile` | file_handler.py:86-88 | with an old sidecar, making the new directory and moving change the state exactly as `MoveSidecar` says; without one nothing changes |
| `Handler.FileHandler.OnDeleted` | file_handler.py:91-134 | the new state and outcome are `OnDeletedStep` of the old state; the filesystem stays a tree |
| `Handler.FileHandler.RemoveMirrorDir` | file_handler.py:97-101 | the directory branch changes the state exactly as `RemoveMirror` says |
| `Handler.FileHandler.RemoveSidecarFile` | file_handler.py:111-115 | the sidecar removal changes the state exactly as `RemoveSidecar` says |
| `Handler.FileHandler.ProbeWatchFile` | file_handler.py:119-134 | the loop removes the candidate `FirstExisting` picks and prints its lines, or changes nothing |
| `Handler.FileHandler.RemoveFirstWatchFile` | file_handler.py:127-134 | the loop over the extensions removes the candidate `FirstExisting` picks, prints its three lines and stops, or finds none and changes nothing |
| `Handler.OnCreatedStepInvariant` | file_handler.py:64 | `on_created` keeps the filesystem a tree and every marker a `.txt` path whose raw components begin with the archive root's (before `..` is resolved); markers only grow; the console only grows |
| `Handler.CreateSidecarInvariant` | file_handler.py:33-69 | writing a sidecar whose raw path begins with the archive root's components keeps the tree and the marker invariant; markers and console only grow |
| `Handler.SidecarShape` | file_handler.py:30 | every sidecar path begins with the archive root's components (before `..` is resolved) and ends in a plain `<stem>.txt` name |
| `Handler.OnMovedStepInvariant` | file_handler.py:86-88 | `on_moved` keeps the filesystem a tree, leaves markers and console alone, and changes nothing without an old sidecar |
| `Handler.MoveSidecarInvariant` | file_handler.py:86-88 | moving a sidecar keeps the tree, the markers and the console; without an old sidecar nothing changes |
| `Handler.ProbeStepInvariant` | file_handler.py:127-134 | the probe keeps the tree, only removes files, and leaves directories and markers alone |
| `Handler.ProbeCandidatesInvariant` | file_handler.py:127-134 | the probe over any fifteen candidates keeps the tree, the markers and the directories, and only removes files |
| `Handler.OnDeletedStepInvariant` | file_handler.py:91-134 | `on_deleted` keeps the tree and the markers, only appends to the console, and never creates or rewrites a file |
| `Handler.RemovalsInvariant` | file_handler.py:97-115 | removing the mirror directory or the sidecar keeps the tree and the markers, only appends to the console, and never creates or rewrites a file |
| `Handler.OnCreatedWritesSidecar` | file_handler.py:49-69 | for a non-`.txt` file, success happens exactly when no file blocks the sidecar's directory and the sidecar is not a directory; then exactly the sidecar is (over)written with the record, added to the markers, and "File added" printed; a failure writes, marks and prints nothing |
| `Handler.CreateSidecarWrites` | file_handler.py:33-69 | the same, for any sidecar path with a plain last component: success exactly when nothing blocks the directory or the file, and then exactly the record, the marker and the added lines |
| `Handler.OnCreatedRecordsName` | file_handler.py:53-61 | the sidecar written reads back with "File name: " giving the base name and "Last updated: " the date |
| `Handler.OnCreatedIgnoresTxt` | file_handler.py:39-46 | a `.txt` file gets no sidecar and no marker; "Ignored" is printed exactly when the call succeeds and the path is not a marker; the sidecar's directory is still created |
| `Handler.CreateSidecarIgnoresTxt` | file_handler.py:39-46 | a `.txt` name writes no file and adds no marker; "Ignored" is printed exactly when the call succeeds and the path is not a marker |
| `Handler.OnCreatedSkipsOwnSidecar` | file_handler.py:33-37 | an event for its own sidecar path writes, marks and prints nothing, after creating the directory |
| `Handler.SecondCreateIsSilent` | file_handler.py:42-43 | after a sidecar is written, a creation event for that sidecar under a `.txt` name prints, writes and marks nothing |
| `Handler.SidecarEventAfterAddIsSilent` | file_handler.py:36-46 | after a file is added, the creation event for its sidecar prints and writes nothing |
| `Handler.OnMovedRelocatesSidecar` | file_handler.py:86-88 | the new sidecar path holds exactly the old sidecar's contents and the old path is gone |
| `Handler.MoveSidecarRelocates` | file_handler.py:86-88 | an existing sidecar moved to a free path with nothing blocking its directory succeeds and carries its record to the new path |
| `Handler.OnMovedSameSidecarKeepsFiles` | file_handler.py:83-88 | a rename that keeps the sidecar path leaves every file unchanged |
| `Handler.MoveSidecarOntoItself` | file_handler.py:86-88 | moving an existing sidecar onto itself keeps every file, and succeeds exactly when no file blocks its directory |
| `Handler.OnDeletedDirectoryClearsMirror` | file_handler.py:93-102 | for a directory other than the watch root or its ancestors, a mirror that is a directory goes with everything below it, nothing else does, and the notice is printed |
| `Handler.OnDeletedWatchRootEmptiesMirror` | file_handler.py:94-98 | deleting the watch root or an ancestor empties its mirror but keeps the mirror directory, raises, and prints nothing |
| `Handler.OnDeletedDirectoryWithoutMirror` | file_handler.py:97 | a mirror that is not a directory leaves the whole state unchanged; the call returns exactly when the mirror is not a file either |
| `Handler.OnDeletedRemovesSidecar` | file_handler.py:110-115 | an existing sidecar file is removed and "File deleted" printed; no file is created or changed |
| `Handler.RemoveSidecarOfFile` | file_handler.py:111-115 | a sidecar that is a file is removed, exactly it, and "File deleted" printed |
| `Handler.RemoveSidecarKeeps` | file_handler.py:111-112 | removing the sidecar keeps every other file and every directory |
| `Handler.ProbeRemovesBesideDeleted` | file_handler.py:127-134 | the probe removes no file or exactly one, which lies beside the deleted path |
| `Handler.ProbeRemovesAtMostOne` | file_handler.py:127-134 | the probe leaves the files alone or removes exactly one candidate |
| `Handler.ProbeCandidatesKeep` | file_handler.py:127-134 | the probe keeps every file that is not a candidate, and every directory |
| `Handler.ProbeKeeps` | file_handler.py:119-134 | the reverse probe keeps every file for a base name not ending in `.txt`, and otherwise every file that is not one of its candidates |
| `Handler.ProbePrefersFirstExtension` | file_handler.py:121-134 | when the `.mp4` candidate is a file, only it is removed, whatever later candidates exist |
| `Handler.OnDeletedFileRemovesOnly` | file_handler.py:105-134 | a file deletion keeps every directory and every file other than the sidecar and, for a `.txt` base name only, the probe's candidates |
| `Handler.DeleteFileKeeps` | file_handler.py:105-134 | the sidecar removal followed by the probe, when it runs, keeps every file that is neither the sidecar nor (when probing) a candidate, and every directory |
| `Handler.SiblingArchiveDeletionSparesWatchTree` | file_handler.py:105-134 | with sibling roots, deleting an archive file never removes or alters a file in the watch tree |
| `Handler.CreateThenDeleteRemovesSidecar` | file_handler.py:30-112 | a file added below the watch root and then deleted leaves no sidecar behind |

## Left out

- The `__main__` block (file_handler.py:136-160) is left out. It holds the hard-coded Windows roots, creates the roots, starts the `Observer` threads and runs the busy-wait loop. All of that is I/O and concurrency.
- watchdog's `Observer` and `FileSystemEventHandler` are a foreign library. Events are plain records. The order in which events arrive, and events the handler's own writes trigger, are not generated by the model. The lemmas take them as explicit inputs.
- `unicodedata.normalize('NFC', _)` is the function parameter `nfc`. It is applied at the same call sites as the source, and not at file_handler.py:124. No property of Unicode normalisation is relied on. `Handler.SidecarEventAfterAddIsSilent` takes "keeps the `.txt` ending" as a hypothesis.
- `datetime.now().strftime(...)` (file_handler.py:49) is the `currentDate` parameter. Its format is not modelled.
- `print` is an append to a sequence of lines. Output bytes and the stream are not modelled.
- Exceptions are `Raised` outcomes. Only the file-versus-directory clashes the filesystem model can produce are covered. Permissions, full disks and other I/O errors are not. What watchdog does with an exception is not modelled either.
- `Disks.RemoveTree`: for a path ending in `..` that normalises to the filesystem root, the error is always `NotFound`; the error `rmdir` gives for the root itself is not modelled.
- Path resolution is lexical. Symlinks, and `..` resolved through the real directory tree, are not modelled. For example, `os.makedirs` on a path with `..` after a missing directory also creates that directory; here it does not.
- Windows separators, drive letters, case-insensitive names, and `shutil.move`'s copy fallback across devices are not modelled.
- Paths are absolute sequences of components. Relative roots, which depend on the current directory, are not modelled. Neither are components that contain `/`, nor the string form of a path beyond `Paths.Render` for the directory notice.
- File contents are `seq<char>`. The UTF-8 encoding is not modelled.
- `Paths.Relpath`: its own contract only says the result is non-empty. What `relpath` means is stated by `Paths.RelpathJoinRoundTrip` and `Paths.RelpathBelow`.
