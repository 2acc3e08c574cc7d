/** The root `FileCopy` (file_copy.py): the session guard of the first
    version, driving the root `Worker` (worker.py). It is idle while
    `worker` is None and busy otherwise.

    Two of its methods do not do what they evidently mean to, and each is
    modelled twice: as written, and corrected. `start_copy` connects the
    worker's `not_files_found`, which the root `Worker` does not declare, so
    it raises before starting the worker; `cancel_copy` tests
    `is_copying_files() is False`, so it calls `cancelCopy` on None when idle
    and does nothing while copying. */
module RootFileCopy {
  import opened Disk
  import opened Results
  import opened Transfer
  import opened RootWorker

  class FileCopy {
    /** The filesystem the workers copy into. */
    const fs: FileSystem
    var worker: Worker?
    /** The signals `FileCopy` itself has emitted, in order. */
    var emitted: seq<Event>

    /** A new `FileCopy` is idle. */
    constructor (fs: FileSystem)
      ensures this.fs == fs && worker == null && emitted == []
    {
      this.fs := fs;
      worker := null;
      emitted := [];
    }

    /** `is_copying_files`. */
    predicate IsCopyingFiles()
      reads this
    {
      worker != null
    }

    /** `start_copy` as written: while busy it does nothing; when idle it
        installs a new worker, connects its `progress_changed`, and raises
        `AttributeError` at `not_files_found`, so the worker never starts
        and the object stays busy. */
    method StartCopyAsWritten(sourceFolderPath: string, toFolderPath: string) returns (outcome: Outcome)
      modifies this`worker
      ensures old(worker) != null ==> worker == old(worker) && outcome == Pass
      ensures old(worker) == null ==>
                && worker != null && fresh(worker)
                && worker.source == sourceFolderPath && worker.to == toFolderPath && worker.fs == fs
                && !worker.started && !worker.cancel && worker.events == []
                && outcome == Fail(AttributeError("not_files_found"))
      ensures IsCopyingFiles()
    {
      if IsCopyingFiles() {
        return Pass;
      }
      worker := new Worker(sourceFolderPath, toFolderPath, fs);
      // progress_changed is connected; the root Worker has no not_files_found
      outcome := Fail(AttributeError("not_files_found"));
    }

    /** `start_copy` corrected: connects the signals the root `Worker` has
        (`progress_changed`, `finished`) and starts it. While busy it does
        nothing. */
    method StartCopy(sourceFolderPath: string, toFolderPath: string)
      modifies this`worker
      ensures old(worker) != null ==> worker == old(worker)
      ensures old(worker) == null ==>
                && worker != null && fresh(worker)
                && worker.source == sourceFolderPath && worker.to == toFolderPath && worker.fs == fs
                && worker.started && !worker.cancel && worker.events == []
      ensures IsCopyingFiles()
    {
      if IsCopyingFiles() {
        return;
      }
      worker := new Worker(sourceFolderPath, toFolderPath, fs);
      worker.Start();
    }

    /** `cancel_copy` as written: when idle it calls `cancelCopy` on None,
        which raises `AttributeError`; while copying it does nothing, so the
        running worker's flag is never raised. */
    method CancelCopyAsWritten() returns (outcome: Outcome)
      modifies this`worker
      ensures worker == old(worker)
      ensures old(worker) == null ==> outcome == Fail(AttributeError("cancelCopy"))
      ensures old(worker) != null ==> outcome == Pass && worker.cancel == old(worker.cancel)
    {
      if IsCopyingFiles() == false {
        outcome := Fail(AttributeError("cancelCopy"));  // `None.cancelCopy()`
        return;
      }
      outcome := Pass;
    }

    /** `cancel_copy` corrected: while copying it raises the worker's flag
        and forgets the worker, as the body intends; when idle it does
        nothing. Either way the object ends idle. */
    method CancelCopy()
      modifies this`worker, worker
      ensures worker == null
      ensures old(worker) != null ==>
                && old(worker).cancel
                && old(worker).started == old(worker.started)
                && old(worker).events == old(worker.events)
    {
      if IsCopyingFiles() {
        worker.CancelCopy();
        worker := null;
      }
    }

    /** `copy_finished_func`: back to idle. */
    method CopyFinishedFunc()
      modifies this`worker
      ensures worker == null
    {
      worker := null;
    }

    /** A signal of the root worker reaching this object (it has only
        `progress_changed` and `finished`): each is re-emitted, and
        `finished`, via `copy_finished`, also reaches `copy_finished_func`. */
    method Deliver(e: Event)
      requires e.Progress? || e == Finished
      modifies this`worker, this`emitted
      ensures emitted == old(emitted) + [e]
      ensures worker == if e == Finished then null else old(worker)
    {
      emitted := emitted + [e];
      if e == Finished {
        CopyFinishedFunc();
      }
    }
  }

  /** `is_copying_files` over one session with the corrected methods: false
      before the first start, true while the worker runs and reports
      progress, false once `finished` has arrived, and false after a
      corrected cancel of a second session. */
  method SessionLifecycle(fs: FileSystem, sourceFolderPath: string, toFolderPath: string)
      returns (beforeStart: bool, afterStart: bool, afterProgress: bool, afterFinished: bool, afterCancel: bool)
    ensures !beforeStart && afterStart && afterProgress && !afterFinished && !afterCancel
  {
    var fc := new FileCopy(fs);
    beforeStart := fc.IsCopyingFiles();
    fc.StartCopy(sourceFolderPath, toFolderPath);
    afterStart := fc.IsCopyingFiles();
    fc.Deliver(Progress(0));
    afterProgress := fc.IsCopyingFiles();
    fc.Deliver(Finished);
    afterFinished := fc.IsCopyingFiles();
    fc.StartCopy(sourceFolderPath, toFolderPath);
    fc.CancelCopy();
    afterCancel := fc.IsCopyingFiles();
  }

  /** The start as written leaves the object busy with a worker that never
      runs: a second start is a no-op, so no copy ever happens. */
  method StartNeverRuns(fs: FileSystem, sourceFolderPath: string, toFolderPath: string)
      returns (first: Outcome, second: Outcome, started: bool)
    ensures first == Fail(AttributeError("not_files_found"))
    ensures second == Pass
    ensures !started
  {
    var fc := new FileCopy(fs);
    first := fc.StartCopyAsWritten(sourceFolderPath, toFolderPath);
    var w := fc.worker;
    second := fc.StartCopyAsWritten(sourceFolderPath, toFolderPath);
    assert fc.worker == w;
    started := w.started;
  }

  /** The cancel as written never reaches a running worker: after a
      (corrected) start, `cancel_copy` leaves the worker's flag down, while
      the corrected `cancel_copy` raises it. */
  method CancelWhileCopying(fs: FileSystem, sourceFolderPath: string, toFolderPath: string)
      returns (asWritten: bool, corrected: bool)
    ensures !asWritten
    ensures corrected
  {
    var fc := new FileCopy(fs);
    fc.StartCopy(sourceFolderPath, toFolderPath);
    var w := fc.worker;
    var _ := fc.CancelCopyAsWritten();
    asWritten := w.cancel;
    fc.CancelCopy();
    corrected := w.cancel;
  }
}
