/** The root `Worker` (worker.py): walks the source tree and copies every
    image file it meets into the destination folder, by name, polling a
    cancel flag before each visited file; it emits progress, and `finished`
    unless the flag is set at the end. Seeing the flag ends the run without
    any signal.

    The thread body runs sequentially here. The listing `os.walk(source)`
    yields is the input `walk`; the host's `cancelCopy` is the input
    `cancelAt`, the number of files visited when the host's call lands. */
module RootWorker {
  import opened Paths
  import opened Disk
  import opened FileOptions
  import opened Transfer
  import opened CopyStep
  import opened Walk

  class Worker {
    const source: string
    const to: string
    /** The filesystem the thread reads and writes. */
    const fs: FileSystem
    var cancel: bool
    /** Every signal emitted so far. */
    var events: seq<Event>
    /** Whether `QThread.start()` has been called. */
    var started: bool

    constructor (source: string, to: string, fs: FileSystem)
      ensures this.source == source && this.to == to && this.fs == fs
      ensures !cancel && events == [] && !started
    {
      this.source := source;
      this.to := to;
      this.cancel := false;
      this.fs := fs;
      this.events := [];
      this.started := false;
    }

    /** `QThread.start()`: the thread will execute `Run`. */
    method Start()
      modifies this`started
      ensures started
    {
      started := true;
    }

    /** `cancelCopy`: raises the flag and does nothing else. */
    method CancelCopy()
      modifies this`cancel
      ensures cancel
    {
      cancel := true;
    }

    /** The images among the first `k` visited files have been copied,
        after the log entries `prior`, into a destination that held
        `existing`. */
    ghost predicate Walked(found: seq<Found>, k: nat, existing: set<string>, prior: seq<Copy>)
      requires k <= |found|
      reads fs
    {
      && fs.copies == prior + WalkRun(existing, to, found[..k])
      && fs.paths == existing + Dsts(WalkRun(existing, to, found[..k]))
    }

    /** The body of the inner loop past the cancel check: when `file` of
        directory `root` is an image, copies it to `to/file` (or to the disk
        resolver's answer when that exists) and emits the raised counter. */
    method VisitNext(root: string, file: string, progress0: nat, ghost found: seq<Found>, ghost k: nat,
                     ghost existing: set<string>, ghost prior: seq<Copy>, ghost before: seq<Event>)
        returns (progress: nat)
      requires k < |found| && found[k] == Found(root, file)
      requires Walked(found, k, existing, prior)
      requires progress0 == |WalkRun(existing, to, found[..k])|
      requires events == before + Trail(progress0)
      modifies this`events, fs`paths, fs`copies
      ensures Walked(found, k + 1, existing, prior)
      ensures progress == |WalkRun(existing, to, found[..k + 1])|
      ensures events == before + Trail(progress)
    {
      progress := progress0;
      if Eligible(file, Images) {
        var srcPath := Join(root, file);
        ghost var seen := fs.paths;
        var destPath := DestinationOfName(fs, to, file);
        fs.CopyFile(srcPath, destPath);
        WalkRunNext(existing, to, found, k, prior, seen, destPath);
        TrailStep(before, progress);
        progress := progress + 1;
        events := events + [Progress(progress)];
      } else {
        WalkRunSkip(existing, to, found, k);
      }
    }

    /** `run`: progress 0, the walk's loops, then `finished` unless the flag
        is set at the final check. */
    method Run(walk: seq<Dir>, cancelAt: nat)
      modifies this`cancel, this`events, fs
      ensures var found := Flat(walk);
              var point := CheckPoint(old(cancel), cancelAt);
              var run := WalkRun(old(fs.paths), to, found[..Stop(point, |found|)]);
              && cancel == (point <= |found|)
              && events == old(events) + WalkEvents(point, |found|, |run|)
              && fs.copies == old(fs.copies) + run
              && fs.paths == old(fs.paths) + Dsts(run)
              && fs.zips == old(fs.zips)
    {
      ghost var point := CheckPoint(cancel, cancelAt);
      ghost var before := events;
      var progress := 0;
      events := events + [Progress(progress)];

      var visited;
      visited, progress := WalkFiles(walk, cancelAt);
      assert events == before + [Progress(0)] + Trail(progress);

      if cancelAt == visited {
        cancel := true;  // the host's `cancelCopy` lands here
      }
      if !cancel {
        events := events + [Finished];
      }
      WalkEventsCompose(before, point, |Flat(walk)|, progress);
    }

    /** The two `for` loops of `run`, over the directories and over each
        one's files: they end early, with no signal, at the first check that
        sees the flag. `visited` counts the checks made, `progress` the
        images copied. */
    method WalkFiles(walk: seq<Dir>, cancelAt: nat) returns (visited: nat, progress: nat)
      modifies this`cancel, this`events, fs`paths, fs`copies
      ensures cancel == (old(cancel) || cancelAt < |Flat(walk)|)
      ensures visited == Stop(CheckPoint(old(cancel), cancelAt), |Flat(walk)|)
      ensures Walked(Flat(walk), visited, old(fs.paths), old(fs.copies))
      ensures progress == |WalkRun(old(fs.paths), to, Flat(walk)[..visited])|
      ensures events == old(events) + Trail(progress)
    {
      ghost var found := Flat(walk);
      progress := 0;
      visited := 0;
      assert found[..0] == [];
      var w := 0;
      while w < |walk|
        invariant w <= |walk|
        invariant visited == Total(walk[..w]) <= |found|
        invariant cancel == old(cancel)
        invariant visited > 0 ==> !old(cancel) && visited <= cancelAt
        invariant Walked(found, visited, old(fs.paths), old(fs.copies))
        invariant progress == |WalkRun(old(fs.paths), to, found[..visited])|
        invariant events == old(events) + Trail(progress)
      {
        FlatDir(walk, w);
        VisitsAt(found, visited, walk[w]);
        var stopped;
        visited, progress, stopped := VisitDir(walk[w].root, walk[w].files, cancelAt, visited, progress,
                                               found, old(cancel), old(fs.paths), old(fs.copies), old(events));
        if stopped {
          return;
        }
        w := w + 1;
      }
      FlatAll(walk);
    }

    /** The inner `for` loop of `run`, over the `files` of directory
        `root`, which the walk visits from position `visited0` on: before
        each file it checks the flag, and stops (`stopped`) at the first check
        that sees it set; otherwise it copies the file when it is an image. */
    method VisitDir(root: string, files: seq<string>, cancelAt: nat, visited0: nat, progress0: nat,
                    ghost found: seq<Found>, ghost canceled0: bool, ghost existing: set<string>,
                    ghost prior: seq<Copy>, ghost before: seq<Event>)
        returns (visited: nat, progress: nat, stopped: bool)
      requires visited0 + |files| <= |found|
      requires forall j :: 0 <= j < |files| ==> found[visited0 + j] == Found(root, files[j])
      requires cancel == canceled0 && (visited0 > 0 ==> !canceled0 && visited0 <= cancelAt)
      requires Walked(found, visited0, existing, prior)
      requires progress0 == |WalkRun(existing, to, found[..visited0])|
      requires events == before + Trail(progress0)
      modifies this`cancel, this`events, fs`paths, fs`copies
      ensures var point := CheckPoint(canceled0, cancelAt);
              var end := visited0 + |files|;
              && stopped == (point < end)
              && cancel == (canceled0 || stopped)
              && visited == (if stopped then point else end)
              && Walked(found, visited, existing, prior)
              && progress == |WalkRun(existing, to, found[..visited])|
              && events == before + Trail(progress)
    {
      visited, progress := visited0, progress0;
      stopped := false;
      var f := 0;
      while f < |files|
        invariant f <= |files|
        invariant visited == visited0 + f
        invariant cancel == canceled0
        invariant visited > 0 ==> !canceled0 && visited <= cancelAt
        invariant Walked(found, visited, existing, prior)
        invariant progress == |WalkRun(existing, to, found[..visited])|
        invariant events == before + Trail(progress)
      {
        if visited == cancelAt {
          cancel := true;  // the host's `cancelCopy` lands here
        }
        if cancel {
          stopped := true;
          return;
        }

        progress := VisitNext(root, files[f], progress, found, visited, existing, prior, before);
        visited := visited + 1;
        f := f + 1;
      }
    }
  }
}
