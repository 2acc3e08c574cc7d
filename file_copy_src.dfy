/** The src `FileCopy` (src/file_copy.py): the session guard between the
    window and one worker thread. It is idle while `worker` is None and busy
    otherwise; it starts a worker only when idle, forwards a cancel only when
    busy, and returns to idle only through `copy_finished`.

    The worker it drives is modelled by `Job`: the calls this file makes on
    it (a three-argument constructor, `start`, `cancelCopy`, and four
    signals) match no worker class of the repository, so `Job` stands for
    the worker as this file uses it. */
module SrcFileCopy {
  import opened FileOptions
  import opened Transfer

  /** The worker as `FileCopy` uses it. */
  class Job {
    const source: string
    const to: string
    const fileOption: FileType
    var cancel: bool
    /** Whether `QThread.start()` has been called. */
    var started: bool

    constructor (source: string, to: string, fileOption: FileType)
      ensures this.source == source && this.to == to && this.fileOption == fileOption
      ensures !cancel && !started
    {
      this.source := source;
      this.to := to;
      this.fileOption := fileOption;
      this.cancel := false;
      this.started := false;
    }

    method Start()
      modifies this`started
      ensures started
    {
      started := true;
    }

    method CancelCopy()
      modifies this`cancel
      ensures cancel
    {
      cancel := true;
    }
  }

  class FileCopy {
    var worker: Job?
    /** The signals `FileCopy` itself has emitted, in order. */
    var emitted: seq<Event>

    /** A new `FileCopy` is idle. */
    constructor ()
      ensures worker == null && emitted == []
    {
      worker := null;
      emitted := [];
    }

    /** `is_copying_files`. */
    predicate IsCopyingFiles()
      reads this
    {
      worker != null
    }

    /** `start_copy`: while busy it does nothing and the running worker
        stays; when idle it installs a new worker for this source,
        destination and file type and starts it, after which the object is
        busy. */
    method StartCopy(sourceFolderPath: string, toFolderPath: string, fileOption: FileType)
      modifies this`worker
      ensures old(worker) != null ==> worker == old(worker)
      ensures old(worker) == null ==>
                && worker != null && fresh(worker)
                && worker.source == sourceFolderPath && worker.to == toFolderPath
                && worker.fileOption == fileOption
                && worker.started && !worker.cancel
      ensures IsCopyingFiles()
    {
      if IsCopyingFiles() {
        return;
      }
      worker := new Job(sourceFolderPath, toFolderPath, fileOption);
      // its progress_changed, not_files_found, finished and copy_canceled
      // are connected to this object's signals of the same meaning
      worker.Start();
    }

    /** `cancel_copy`: raises the running worker's flag; when idle it does
        nothing. It never changes which worker is installed. */
    method CancelCopy()
      modifies worker
      ensures worker == old(worker)
      ensures worker != null ==> worker.cancel && worker.started == old(worker.started)
    {
      if IsCopyingFiles() {
        worker.CancelCopy();
      }
    }

    /** `copy_finished_func`: back to idle. */
    method CopyFinishedFunc()
      modifies this`worker
      ensures worker == null
    {
      worker := null;
    }

    /** A signal of the worker reaching this object: each is re-emitted
        under this object's signal of the same meaning, and `finished`, via
        `copy_finished`, also reaches `copy_finished_func`. So only
        `finished` returns the object to idle; `copy_canceled` and
        `not_files_found` leave the worker installed. */
    method Deliver(e: Event)
      modifies this`worker, this`emitted
      ensures emitted == old(emitted) + [e]
      ensures worker == if e == Finished then null else old(worker)
    {
      emitted := emitted + [e];
      if e == Finished {
        CopyFinishedFunc();
      }
    }
  }

  /** `is_copying_files` over one session: false before the first start,
      true once a worker is started, still true after a second start (which
      keeps the running worker) and after a cancel with its `copy_canceled`,
      and false again only once `finished` has arrived. */
  method SessionLifecycle(sourceFolderPath: string, toFolderPath: string, fileOption: FileType)
      returns (beforeStart: bool, afterStart: bool, sameWorker: bool, afterCancel: bool, afterFinished: bool)
    ensures !beforeStart && afterStart && sameWorker && afterCancel && !afterFinished
  {
    var fc := new FileCopy();
    beforeStart := fc.IsCopyingFiles();
    fc.StartCopy(sourceFolderPath, toFolderPath, fileOption);
    var w := fc.worker;
    fc.StartCopy(sourceFolderPath, toFolderPath, fileOption);
    sameWorker := fc.worker == w;
    afterStart := fc.IsCopyingFiles();
    fc.CancelCopy();
    fc.Deliver(Canceled);
    afterCancel := fc.IsCopyingFiles();
    fc.Deliver(Finished);
    afterFinished := fc.IsCopyingFiles();
  }
}
