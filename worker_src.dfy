/** The src `Worker` (src/worker.py): copies a list of files into a
    destination folder, polling a cancel flag before each file and emitting
    progress, then `finished` unless the flag is set at the end.

    The thread body runs sequentially here. The host's `cancel_copy` is an
    input: `cancelAt` names the check (see module `Transfer`) just before
    which the host's call lands. */
module SrcWorker {
  import opened Disk
  import opened Transfer
  import opened CopyStep

  class Worker {
    const files: seq<string>
    const to: string
    /** The filesystem the thread reads and writes. */
    const fs: FileSystem
    var cancel: bool
    /** Every signal emitted so far. */
    var events: seq<Event>

    constructor (files: seq<string>, to: string, fs: FileSystem)
      ensures this.files == files && this.to == to && this.fs == fs
      ensures !cancel && events == []
    {
      this.to := to;
      this.cancel := false;
      this.files := files;
      this.fs := fs;
      this.events := [];
    }

    /** `cancel_copy`: raises the flag and does nothing else. */
    method CancelCopy()
      modifies this`cancel
      ensures cancel
    {
      cancel := true;
    }

    /** The files before `i` have been copied, after the log entries
        `prior`, into a destination that held `existing`. */
    ghost predicate Copied(i: nat, existing: set<string>, prior: seq<Copy>)
      requires i <= |files|
      reads fs
    {
      && fs.copies == prior + CopyRun(existing, to, files[..i])
      && fs.paths == existing + Dsts(CopyRun(existing, to, files[..i]))
    }

    /** One iteration of the loop past the cancel check: copies file `i`,
        extending the copies made for the files before it. */
    method CopyNext(i: nat, ghost existing: set<string>, ghost prior: seq<Copy>)
      requires i < |files| && Copied(i, existing, prior)
      modifies fs`paths, fs`copies
      ensures Copied(i + 1, existing, prior)
    {
      var file := files[i];
      ghost var seen := fs.paths;
      var destPath := DestinationFor(fs, to, file);
      fs.CopyFile(file, destPath);
      CopyRunNext(existing, to, files, i, prior, seen, destPath);
    }

    /** `run`: progress 0, then each file copied to `to/basename` (or to the
        disk resolver's answer when that exists) until the flag is seen, then
        `finished` unless the flag is set at the final check. Its copies and
        signals are exactly those of `CopyThread` without compression. */
    method Run(cancelAt: nat)
      modifies this, fs
      ensures var point := CheckPoint(old(cancel), cancelAt);
              var run := CopyRun(old(fs.paths), to, files[..Stop(point, |files|)]);
              && cancel == (point <= |files|)
              && events == old(events) + TransferEvents(point, |files|)
              && fs.copies == old(fs.copies) + run
              && fs.paths == old(fs.paths) + Dsts(run)
              && fs.zips == old(fs.zips)
    {
      ghost var point := CheckPoint(cancel, cancelAt);
      ghost var before := events;
      var progress := 0;
      events := events + [Progress(progress)];
      var total := |files|;

      CopyLoop(cancelAt);

      if cancelAt == total {
        cancel := true;  // the host's `cancel_copy` lands here
      }
      assert cancel == (point <= total);
      if !cancel {
        events := events + [Finished];
      }
      TransferEventsCompose(before, point, total);
    }

    /** The `for` loop of `run`: copies each file until the flag is seen,
        emitting progress per file and `copy_canceled` on seeing the flag;
        seeing it ends `run` (the final check then finds it set). */
    method CopyLoop(cancelAt: nat)
      modifies this, fs
      ensures var point := CheckPoint(old(cancel), cancelAt);
              var n := |files|;
              && cancel == (old(cancel) || cancelAt < n)
              && events == old(events) + LoopEvents(point, n)
              && fs.copies == old(fs.copies) + CopyRun(old(fs.paths), to, files[..Stop(point, n)])
              && fs.paths == old(fs.paths) + Dsts(CopyRun(old(fs.paths), to, files[..Stop(point, n)]))
              && fs.zips == old(fs.zips)
    {
      ghost var point := CheckPoint(cancel, cancelAt);
      ghost var existing := fs.paths;
      var total := |files|;
      var progress := 0;

      var i := 0;
      while i < total
        invariant 0 <= i <= total
        invariant progress == i
        invariant cancel == old(cancel)
        invariant i > 0 ==> !old(cancel) && i <= cancelAt
        invariant Copied(i, existing, old(fs.copies))
        invariant fs.zips == old(fs.zips)
        invariant events == old(events) + Trail(i)
      {
        if i == cancelAt {
          cancel := true;  // the host's `cancel_copy` lands here
        }
        if cancel {
          events := events + [Canceled];
          LoopEventsStopped(old(events), point, total, i);
          assert existing == old(fs.paths);
          return;
        }

        CopyNext(i, existing, old(fs.copies));
        progress := progress + 1;
        TrailStep(old(events), i);
        events := events + [Progress(progress)];
        i := i + 1;
      }
      LoopEventsCompleted(old(events), point, total);
      assert files[..i] == files[..total];
      assert existing == old(fs.paths);
    }
  }
}
