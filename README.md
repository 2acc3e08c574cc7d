# recursive-files-copier: the transfer engine in Dafny

recursive-files-copier is a desktop tool. It collects the files of a source
folder and copies them into a new destination folder, or compresses them into
`compressed_files.zip` there, reporting progress and letting the user cancel.
This project models its transfer engine:

- the `CopyThread` of `src/copy_thread.py`, with its two strategies: the plain
  copy loop `_copy_files` and the archive loop `_compress_files`;
- the list-driven `Worker` of `src/worker.py`;
- the walk-driven `Worker` of the older `worker.py`, which walks the source
  tree with `os.walk` and copies only images;
- the two name-collision resolvers: the disk resolver
  `__get_unique_filename`, which probes `stem_1.ext`, `stem_2.ext`, ... on
  disk, and the archive resolver `__get_unique_filename_zip`, whose suffixes
  accumulate (`photo_1_2.jpg`);
- the session objects `FileCopy` of `src/file_copy.py` and `file_copy.py`:
  start, cancel, finish, and the creation of the destination folder
  `folder_<5 random alphanumerics>` beside the source;
- the file-type selector of `src/file_options.py`: the `FileType` enum and the
  image and video extension tables.

The filesystem is the `Disk.FileSystem` class:

- the set of paths `os.path.exists` reports;
- the log of `shutil.copyfile` calls;
- the entry list of each zip archive opened for writing.

Each thread and worker is a class whose `Run` method works on that object in
place. Each `Run` is proved against a value-level function of module
`Transfer` or `Walk`:

- `CopyRun`: the copies of the plain loop;
- `ArchiveRun`: the entries of the archive loop;
- `WalkRun`: the copies of the walk;
- `TransferEvents` / `WalkEvents`: the signals.

Lemmas about those functions then state what the program promises:

- no copy overwrites a path;
- destinations and entry names are pairwise distinct;
- a name is kept unless it collides;
- exactly the images of a walk are copied;
- progress counts up by one per file;
- `finished` and `copy_canceled` exclude each other and come last.

Cancellation comes from the host thread (`cancel_copy` / `cancelCopy`), so
each `Run` takes an input `cancelAt`. It names the cancel check at which the
host's call has become visible:

- check `i < n` is the `if self.cancel` before file `i`;
- check `n` is the final `if not self.cancel`;
- a flag already set before the run counts as check 0.

`Transfer.CheckPoint` and `Transfer.Stop` turn these into the number of
files transferred. Signals are appended to an `events` sequence. Their kinds
are `Progress(k)` (the integer counter), `Finished`, `Canceled` and
`NotFilesFound`.

The root `worker.py` never emits a cancel signal: on cancel it just returns.

## Model

| member | source | states |
|---|---|---|
| Paths.SplitExt | src/copy_thread.py:71 | `os.path.splitext`: stem and extension concatenate back to the path; the extension is empty or one dot followed by no dot and no separator |
| Paths.SplitExtOfName | src/copy_thread.py:78 | a plain name `stem.tail` (stem not all dots, tail without dot) splits into `stem` and `.tail` |
| Paths.SplitExtInComponent | src/copy_thread.py:71 | for any path whose last component is `stem.tail` (tail without a dot): the extension is `.tail` and the rest is the stem, unless the stem is empty or all dots (`dir/.bashrc`), when there is no extension |
| Paths.SplitExtNoDot | src/copy_thread.py:71 | a last component without a dot has no extension, whatever dots the folders hold |
| Paths.SplitExtOfJoin | src/copy_thread.py:62-71 | the joined path `to/stem.tail` the resolver receives splits into `to/stem` and `.tail` |
| Paths.SplitExtPhoto | src/copy_thread.py:71 | `d/photo.jpg` splits into `d/photo` and `.jpg` |
| Paths.SplitExtDotfile | src/copy_thread.py:71 | `d/.bashrc` has no extension: a leading dot starts none |
| Paths.Basename | src/copy_thread.py:44 | `os.path.basename` holds no separator and is no longer than the path |
| Paths.BasenameIsTail | src/copy_thread.py:61 | the basename is exactly the text after the last `/` |
| Paths.JoinParts | src/copy_thread.py:62 | `os.path.join(a, b)` ends with `b`; an absolute `b` replaces `a`; otherwise it is `a`, then one `/` only when `a` is non-empty and does not end with one, then `b` |
| Paths.BasenameOfJoin | src/copy_thread.py:61-62 | joining a separator-free name onto a folder and taking the basename gives the name back |
| Paths.DecimalString | src/copy_thread.py:75 | `str(counter)` is a non-empty string of digits |
| Paths.DecimalStringValue | src/copy_thread.py:75 | `str(counter)` read back as a decimal numeral is `counter`, with no leading zero unless it is `0` |
| Paths.DecimalStringInjective | src/copy_thread.py:75 | distinct counters print differently |
| Paths.LowerIsLowerCase | worker.py:24 | `lower()` leaves no upper-case ASCII letter, keeps every other character, and is idempotent |
| Paths.LowerUpper | worker.py:24 | lowering an upper-cased name equals lowering the name |
| Naming.CandidateInjective | src/copy_thread.py:73-75 | distinct counters give distinct probes `stem_k.ext` |
| Naming.ProbedBound | src/copy_thread.py:73-74 | while every probe exists the counter stays within one more than the number of existing paths, so the loop ends |
| Naming.DiskUniqueName | src/copy_thread.py:70-75 | the disk resolver's answer does not exist and differs from the colliding path |
| Naming.DiskUniqueNameIsLeastFree | src/copy_thread.py:70-75 | the answer is `stem_k.ext` iff that probe is absent and every smaller probe exists |
| Naming.UniqueDiskName | src/copy_thread.py:70-75 | the counter loop returns the resolver's answer, which does not exist |
| Naming.ArchiveStem | src/copy_thread.py:81-83 | the stem the loop settles on extends the original stem and its name is not among the entries |
| Naming.Collisions | src/copy_thread.py:81-83 | the loop body runs at most once per entry at least as long as the probe |
| Naming.ArchiveStemShape | src/copy_thread.py:81-83 | the settled stem is the original followed by the cumulative chain `_1_2..._n`, one suffix per collision |
| Naming.CollisionsBound | src/copy_thread.py:81-83 | the loop runs at most as many times as there are entries |
| Naming.ArchiveUniqueName | src/copy_thread.py:77-85 | the archive resolver's answer is not yet an entry, and an unused name is kept unchanged |
| Naming.ArchiveUniqueNameShape | src/copy_thread.py:77-85 | the answer is stem, chain of `n` suffixes, extension, with `n` at most the number of entries |
| Naming.UniqueArchiveName | src/copy_thread.py:77-85 | the while loop returns the resolver's answer: a new entry name, the original when unused |
| Naming.ArchiveThirdCopy | src/copy_thread.py:81-83 | a name already present together with its `_1` copy is archived as `stem_1_2.ext` |
| Naming.DiskThirdCopy | src/copy_thread.py:73-75 | the same collision on disk resolves to `stem_2.ext` |
| Naming.ArchiveThirdPhoto | src/copy_thread.py:77-85 | a third `photo.jpg` is archived as `photo_1_2.jpg` |
| Naming.DiskThirdPhoto | src/copy_thread.py:70-75 | a third `photo.jpg` is copied to `photo_2.jpg` |
| FileOptions.FromValue | src/file_options.py:4-7 | `FileType(value)` finds the member whose value is `value`, or none |
| FileOptions.ValueRoundTrip | src/file_options.py:4-7 | looking up a member's value gives the member back |
| FileOptions.ExtensionTables | src/file_options.py:10-24 | 5 image and 12 video extensions, each lower-case, dot-prefixed, with no further dot |
| FileOptions.EligibleMeans | worker.py:24 | a file is selected iff its lower-cased name ends with one of the selector's extensions |
| FileOptions.EndsWithAny | worker.py:24 | `str.endswith(tuple)` holds iff the name ends with one of the tuple's entries |
| FileOptions.EligibleUnion | src/file_options.py:10-24 | the combined selector accepts a name iff the image or the video selector does |
| FileOptions.EligibleIgnoresCase | worker.py:24 | upper-casing a name does not change whether it is selected |
| FileOptions.NoCrossSuffix | src/file_options.py:10-24 | no image extension ends with a video extension, nor the other way round |
| FileOptions.ImagesAndVideosDisjoint | src/file_options.py:10-24 | no name is both an image and a video |
| FileOptions.Accepted | src/file_options.py:10-24 | a lower-case name ending with one of the selector's extensions is selected |
| FileOptions.Rejected | src/file_options.py:10-24 | a sufficient test for rejection used by the test examples: a lower-case name whose third-last character differs from that of every extension of the selector is not selected |
| FileOptions.ImagesExamples | tests/test_file_copy.py:53-63 | `.jpg`, `.png`, `.jpeg` are images; `.mp4`, `.txt` are not |
| FileOptions.VideosExamples | tests/test_file_copy.py:65-75 | `.mp4`, `.avi`, `.mov` are videos; `.jpg`, `.txt` are not |
| FileOptions.CombinedExamples | tests/test_file_copy.py:77-87 | the combined selector takes `.jpg`, `.mp4`, `.png`, `.avi` and rejects `.txt` |
| FileOptions.UpperCaseExtension | worker.py:24 | `c.PNG` counts as an image |
| Disk.FileSystem.CopyFile | src/copy_thread.py:66 | `shutil.copyfile` adds the destination path and logs the copy |
| Disk.FileSystem.OpenZip | src/copy_thread.py:38 | opening an archive for writing creates its path with no entries |
| Disk.FileSystem.ZipWrite | src/copy_thread.py:47 | `zipf.write` appends one entry to that archive and touches nothing else |
| Disk.FileSystem.MakeDirs | src/file_copy.py:40 | `os.makedirs` succeeds iff the path did not exist, and the path exists afterwards |
| Disk.Dsts | src/copy_thread.py:66 | every copy's destination is among the paths the copies created |
| Disk.DstsExact | src/copy_thread.py:66 | a path is among those the copies created iff some copy wrote it |
| Transfer.Destination | src/copy_thread.py:61-64 | the destination of a plain copy never exists yet; a free joined path is used as is |
| Transfer.DestinationOfFile | src/copy_thread.py:61-64 | the destination is `to/basename` when free, else the disk resolver's answer for it |
| Transfer.DestinationOfJoin | worker.py:26-28 | for a bare name: `to/name` when free, else the disk resolver's answer |
| Transfer.CopyRun | src/copy_thread.py:56-66 | a plain copy makes exactly one copy per file |
| Transfer.CopyRunAt | src/copy_thread.py:56-66 | copy `i` takes file `i` to its destination given the paths before it |
| Transfer.CopyRunPrefix | src/copy_thread.py:56-66 | stopping after `k` files leaves the first `k` copies of the full run |
| Transfer.CopyRunNoOverwrite | src/copy_thread.py:61-66 | no copy lands on a path that existed or that an earlier copy created |
| Transfer.CopyRunKeepsName | src/copy_thread.py:61-63 | a file whose `to/basename` is free keeps its name |
| Transfer.CopyRunDistinct | src/copy_thread.py:56-66 | all destinations are new and pairwise distinct |
| Transfer.CopyRunAddsOnePathPerFile | src/copy_thread.py:56-66 | the destination gains exactly one path per copied file |
| Transfer.EntryName | src/copy_thread.py:44-45 | an entry name is never already in the archive; an unused name is kept |
| Transfer.EntryNameOfFile | src/copy_thread.py:44-45 | the entry name is the archive resolver's answer for the file's basename |
| Transfer.ArchiveRun | src/copy_thread.py:39-48 | the archive gets exactly one entry per file |
| Transfer.ArchiveRunAt | src/copy_thread.py:39-48 | entry `i` stores file `i` under its name given the entries before it |
| Transfer.ArchiveRunPrefix | src/copy_thread.py:39-48 | stopping after `k` files leaves the first `k` entries of the full run |
| Transfer.ArchiveRunEntry | src/copy_thread.py:44-48 | each entry's name is new, and is the basename when that is unused |
| Transfer.ArchiveRunDistinct | src/copy_thread.py:39-48 | all entry names are pairwise distinct |
| Transfer.TransferProgress | src/copy_thread.py:20-30 | the first signal is progress 0; the `i`-th signal, when progress, carries `i`, never above the file count; no `not_files_found` is ever emitted |
| Transfer.TransferOutcome | src/copy_thread.py:20-30 | `finished` iff no cancel was seen; `copy_canceled` iff a per-file check saw it; whichever comes is the last signal and appears once |
| Transfer.UncanceledRun | src/copy_thread.py:20-30 | an uncancelled run emits progress 0 to `n` then `finished` |
| Transfer.CanceledBeforeRun | src/copy_thread.py:57-59 | cancelling before the run transfers nothing and emits progress 0 then `copy_canceled` (no cancel signal when there are no files) |
| CopyStep.DestinationOfName | worker.py:26-28 | the per-file code picks the destination for a bare name, which does not exist yet |
| CopyStep.DestinationFor | src/copy_thread.py:61-64 | the per-file code picks the destination for a source path, which does not exist yet |
| SrcCopyThread.ZipPathInFolder | src/copy_thread.py:37 | the archive is the file `compressed_files.zip` inside the destination: `to/compressed_files.zip` for a folder without a trailing `/` |
| SrcCopyThread.CopyThread.constructor | src/copy_thread.py:13-18 | a new thread holds its arguments, the flag is clear and nothing is emitted |
| SrcCopyThread.CopyThread.CancelCopy | src/copy_thread.py:87-88 | `cancel_copy` raises the flag |
| SrcCopyThread.CopyThread.Run | src/copy_thread.py:20-30 | the signals are `TransferEvents`; the flag ends set iff a check saw it; in archive mode the zip holds `ArchiveRun` of the files before the stop and the disk gains only the zip; in copy mode the disk gains `CopyRun` of those files and no archive changes |
| SrcCopyThread.CopyThread.CompressFiles | src/copy_thread.py:32-50 | the archive loop writes `ArchiveRun` of the files before the stop, creates only the zip path and emits the loop's signals |
| SrcCopyThread.CopyThread.ArchiveNameFor | src/copy_thread.py:44-45 | the entry name of one file is the archive resolver's answer for its basename |
| SrcCopyThread.CopyThread.ZipNext | src/copy_thread.py:44-48 | one iteration extends the written entries and the name list to those of the next prefix |
| SrcCopyThread.CopyThread.CopyNext | src/copy_thread.py:61-66 | one iteration extends the disk to the `CopyRun` of the next prefix |
| SrcCopyThread.CopyThread.CopyFiles | src/copy_thread.py:52-68 | the copy loop makes `CopyRun` of the files before the stop, adds its destinations and emits the loop's signals |
| SrcWorker.Worker.constructor | src/worker.py:12-16 | a new worker holds its files and folder with the flag clear |
| SrcWorker.Worker.CancelCopy | src/worker.py:47-48 | `cancel_copy` raises the flag |
| SrcWorker.Worker.CopyNext | src/worker.py:28-35 | one iteration extends the disk to the `CopyRun` of the next prefix |
| SrcWorker.Worker.Run | src/worker.py:18-38 | the signals are `TransferEvents`; the disk gains `CopyRun` of the files before the stop; archives are untouched |
| SrcWorker.Worker.CopyLoop | src/worker.py:23-35 | the loop copies the files before the stop and emits the loop's signals |
| Walk.TotalCountsEveryFile | worker.py:16 | `total` equals the number of files the walk visits |
| Walk.FlatPrefix | worker.py:20-21 | the directories before `w` are visited first, in order |
| Walk.FlatDir | worker.py:20-21 | directory `w`'s files are visited at positions `Total(walk[..w])` onwards |
| Walk.WalkRun | worker.py:20-31 | the walk makes at most one copy per visited file |
| Walk.WalkRunNext | worker.py:24-31 | visiting an image copies it to its destination and extends the run |
| Walk.WalkRunSkip | worker.py:24 | visiting any other file changes nothing |
| Walk.WalkRunCopiesImages | worker.py:20-29 | the copies' sources are exactly the images' paths, in visiting order |
| Walk.WalkRunAddsOnePathPerCopy | worker.py:26-29 | no copy overwrites: the destination gains one path per copy |
| Walk.WalkEventsShape | worker.py:15-33 | progress 0 first, the counter rises by one per signal up to at most the visited files, `finished` iff no cancel was seen, never a cancel signal |
| Walk.WalkCopiesWithinTotal | worker.py:16-31 | the counter never exceeds `total` |
| RootWorker.Worker.constructor | worker.py:9-13 | a new worker holds its folders with the flag clear, not started |
| RootWorker.Worker.Start | worker.py:5 | starting the thread marks it started |
| RootWorker.Worker.CancelCopy | worker.py:42-43 | `cancelCopy` raises the flag |
| RootWorker.Worker.VisitNext | worker.py:24-31 | one visited file extends the disk, the counter and the signals to those of the next prefix |
| RootWorker.Worker.VisitDir | worker.py:21-31 | the inner loop stops at the first check that sees the flag, else visits every file of the directory |
| RootWorker.Worker.WalkFiles | worker.py:20-31 | the nested loops copy `WalkRun` of the files before the stop and emit one progress signal per copy |
| RootWorker.Worker.Run | worker.py:15-33 | the signals are `WalkEvents`; the disk gains `WalkRun` of the visited files before the stop; archives are untouched |
| Folders.CharactersAreAlnum | src/file_copy.py:44 | `ascii_letters + digits` has 62 characters, exactly the ASCII letters and digits |
| Folders.GenerateUniqueName | src/file_copy.py:43-46 | the name has the requested length and only letters and digits |
| Folders.FolderPathShape | src/file_copy.py:38-39 | the folder is `folder_<name>` inside `source/..` |
| Folders.FolderPathInjective | src/file_copy.py:38-39 | different names give different folders |
| Folders.UniqueNameHasNoSeparator | src/file_copy.py:43-46 | a generated name holds no separator |
| Folders.CreateFolder | src/file_copy.py:37-41 | creates `source/../folder_<5 alphanumerics>`; raises `FileExistsError` iff that path already existed |
| SrcFileCopy.Job.constructor | src/file_copy.py:23 | the worker holds the request, flag clear, not started |
| SrcFileCopy.Job.Start | src/file_copy.py:28 | starting the worker marks it started |
| SrcFileCopy.Job.CancelCopy | src/file_copy.py:32 | the worker's cancel raises its flag |
| SrcFileCopy.FileCopy.constructor | src/file_copy.py:15-18 | a new session has no worker and has emitted nothing |
| SrcFileCopy.FileCopy.StartCopy | src/file_copy.py:20-28 | a busy session keeps its worker; an idle one gets a new, started worker for the request; either way it is busy afterwards |
| SrcFileCopy.FileCopy.CancelCopy | src/file_copy.py:30-32 | a busy session raises its worker's flag and keeps it; an idle one does nothing |
| SrcFileCopy.FileCopy.CopyFinishedFunc | src/file_copy.py:34-35 | the session becomes idle |
| SrcFileCopy.FileCopy.Deliver | src/file_copy.py:17-27 | each forwarded signal is recorded; `finished` makes the session idle, others keep the worker |
| SrcFileCopy.SessionLifecycle | src/file_copy.py:20-55 | `is_copying_files` is false before a start, true after it, after a second start (which keeps the running worker) and after a cancel with its `copy_canceled`, and false once `finished` arrives |
| RootFileCopy.FileCopy.constructor | file_copy.py:12-15 | a new session has no worker and has emitted nothing |
| RootFileCopy.FileCopy.StartCopyAsWritten | file_copy.py:17-23 | as written: an idle session stores a new, unstarted worker for the request, with its flag clear and no signals, then raises `AttributeError` on `not_files_found`; a busy one returns |
| RootFileCopy.FileCopy.StartCopy | file_copy.py:17-23 | corrected: an idle session gets a new, started worker for the request, with its flag clear and no signals; a busy one keeps its worker |
| RootFileCopy.FileCopy.CancelCopyAsWritten | file_copy.py:25-28 | as written: an idle session raises `AttributeError` on `None.cancelCopy`; a busy one does nothing |
| RootFileCopy.FileCopy.CancelCopy | file_copy.py:25-28 | corrected: the running worker's flag is raised, its started state and signals stay, and the session becomes idle |
| RootFileCopy.FileCopy.CopyFinishedFunc | file_copy.py:30-31 | the session becomes idle |
| RootFileCopy.FileCopy.Deliver | file_copy.py:14-22 | each forwarded signal is recorded; `finished` makes the session idle |
| RootFileCopy.SessionLifecycle | file_copy.py:17-49 | with the corrected methods, `is_copying_files` is false before a start, true while the worker runs and reports progress, false once `finished` arrives and false after a cancel |
| RootFileCopy.StartNeverRuns | file_copy.py:17-23 | as written, a first start fails and leaves an unstarted worker that blocks every later start |
| RootFileCopy.CancelWhileCopying | file_copy.py:25-28 | as written, cancelling a running copy never raises the worker's flag; corrected, it does |

## Left out

- Qt: `QThread.start`, `pyqtSignal` delivery and threads are not modelled. Signals are an appended `events` sequence. The host's cancel is the input `cancelAt`.
- Percentages: `int(progress / total * 100)` is a floating-point expression. Signals carry the integer counter instead.
- File contents, DEFLATE compression and I/O errors other than `FileExistsError` in `create_folder` are not modelled. The filesystem is a set of paths, a copy log and the zip entry lists.
- `os.walk` is an input: the sequence of directories with their file names. Sub-directory lists play no part.
- `os.makedirs` creating intermediate directories is not modelled. Only the created folder's own path is added.
- `random.choice` is a nondeterministic pick (`:|`) from the 62 characters. Nothing says two calls give different names.
- Paths are `/`-separated. Windows separators and drive letters are not modelled. `lower()` and `upper()` act on ASCII letters only.
- Paths.Basename: `os.path.basename` is modelled for `/` separators only.
- The GUI and controller files (`src/main_window.py`, `main_window.py`, `main.py`, `src/main_controller.py`) and `setup.py` are not part of this model.
- `_should_handle_file`, `_find_files_to_copy`, `FileType.CUSTOM` and `CopyOptions` appear in the tests but in no source file, so the directory scan with destination exclusion and the Custom selector are not part of this model. The selector tests for images, videos and both are stated as `FileOptions` lemmas instead.
- `src/file_copy.py` cannot run as written. It imports `FileOptions`, which `src/file_options.py` does not define. It calls `Worker` with three arguments, but `src/worker.py` takes two. It calls `cancelCopy` on a worker that only has `cancel_copy`. The session is therefore modelled over `SrcFileCopy.Job`, a worker with the fields `start_copy` passes and the `start`/`cancelCopy` it calls, as the file evidently expects.
- SrcFileCopy.FileCopy.Deliver: signal forwarding is one recorded event per call. The Qt connection order is not modelled.
- RootWorker.Worker.Run and Walk.WalkCopiesWithinTotal: the two `os.walk` passes of `worker.py` (one for `total`, one for the copies) are taken as one fixed snapshot of the source tree, and the copies the run makes never appear in it. This assumes the destination lies outside the source tree, as `create_folder`'s `source/../folder_<name>` places it. With the destination inside the source, the lazy walk could list and copy earlier copies again and push the counter past `total`; the model does not capture that.
- Paths are compared as literal strings, and a copy adds its literal destination to the path set. No normalisation is done (`d/./x` against `d/x`, trailing `/`, symbolic links), so Transfer.CopyRunNoOverwrite and Transfer.CopyRunDistinct speak about path spellings, not about files.
- RootWorker.Worker.Run: `total` is not a program variable of the model. It only appears in lemmas (`Walk.TotalCountsEveryFile`, `Walk.WalkCopiesWithinTotal`), since it only feeds the percentage.

## Findings

| source | as written | input that shows it | evidently intended | confidence | as-written member | corrected member |
|---|---|---|---|---|---|---|
| file_copy.py:25-28 | `cancel_copy` acts only when `is_copying_files() is False`, so it calls `cancelCopy` on `None` | `start_copy(s, t)` then `cancel_copy()` while the copy runs: the flag stays clear; `cancel_copy()` on an idle session raises `AttributeError` | cancel the running worker when one is copying, as `src/file_copy.py:30-32` does | high, not executed | RootFileCopy.FileCopy.CancelCopyAsWritten, RootFileCopy.CancelWhileCopying | RootFileCopy.FileCopy.CancelCopy |
| file_copy.py:19-23 | `start_copy` connects `not_files_found` on the root `Worker`, which declares only `finished` and `progress_changed` (worker.py:6-7), after storing the worker and before starting it | the first `start_copy(s, t)` raises `AttributeError`; the stored, never-started worker makes every later `start_copy` return at once | start the worker (connect only signals it has) | high, not executed | RootFileCopy.FileCopy.StartCopyAsWritten, RootFileCopy.StartNeverRuns | RootFileCopy.FileCopy.StartCopy |
