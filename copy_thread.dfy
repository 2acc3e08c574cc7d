/** `CopyThread` (src/copy_thread.py): transfers a list of files into a
    destination folder, either as plain copies or into one zip archive,
    polling a cancel flag before each file and emitting progress.

    The thread body runs sequentially here. The host's `cancel_copy` is an
    input: `cancelAt` names the check (see module `Transfer`) just before
    which the host's call lands. */
module SrcCopyThread {
  import opened Paths
  import opened Disk
  import opened Naming
  import opened Transfer
  import opened CopyStep

  /** The archive's path in destination `to`. */
  function ZipPath(to: string): string {
    Join(to, "compressed_files.zip")
  }

  /** The archive is the file `compressed_files.zip` inside `to`. */
  lemma ZipPathInFolder(to: string)
    ensures Basename(ZipPath(to)) == "compressed_files.zip"
    ensures to != [] && to[|to| - 1] != '/' ==> ZipPath(to) == to + "/compressed_files.zip"
  {
    BasenameOfJoin(to, "compressed_files.zip");
  }

  class CopyThread {
    const to: string
    const absolutePathFiles: seq<string>
    const compressAfterCopy: bool
    /** The filesystem the thread reads and writes. */
    const fs: FileSystem
    var cancel: bool
    /** Every signal emitted so far. */
    var events: seq<Event>

    constructor (absolutePathFiles: seq<string>, to: string, compressAfterCopy: bool, fs: FileSystem)
      ensures this.absolutePathFiles == absolutePathFiles && this.to == to
      ensures this.compressAfterCopy == compressAfterCopy && this.fs == fs
      ensures !cancel && events == []
    {
      this.to := to;
      this.cancel := false;
      this.absolutePathFiles := absolutePathFiles;
      this.compressAfterCopy := compressAfterCopy;
      this.fs := fs;
      this.events := [];
    }

    /** `cancel_copy`: raises the flag and does nothing else, so a second
        call changes nothing. */
    method CancelCopy()
      modifies this`cancel
      ensures cancel
    {
      cancel := true;
    }

    /** `run`: progress 0, the selected loop, and `finished` unless the flag
        is set at the final check. */
    method Run(cancelAt: nat)
      modifies this, fs
      ensures cancel == (CheckPoint(old(cancel), cancelAt) <= |absolutePathFiles|)
      ensures events == old(events) + TransferEvents(CheckPoint(old(cancel), cancelAt), |absolutePathFiles|)
      ensures compressAfterCopy ==>
                var done := absolutePathFiles[..Stop(CheckPoint(old(cancel), cancelAt), |absolutePathFiles|)];
                && fs.zips == old(fs.zips)[ZipPath(to) := ArchiveRun(done)]
                && fs.paths == old(fs.paths) + {ZipPath(to)}
                && fs.copies == old(fs.copies)
      ensures !compressAfterCopy ==>
                var done := absolutePathFiles[..Stop(CheckPoint(old(cancel), cancelAt), |absolutePathFiles|)];
                && fs.copies == old(fs.copies) + CopyRun(old(fs.paths), to, done)
                && fs.paths == old(fs.paths) + Dsts(CopyRun(old(fs.paths), to, done))
                && fs.zips == old(fs.zips)
    {
      ghost var point := CheckPoint(cancel, cancelAt);
      ghost var before := events;
      var progress := 0;
      events := events + [Progress(progress)];

      if compressAfterCopy {
        CompressFiles(cancelAt);
      } else {
        CopyFiles(cancelAt);
      }
      assert events == before + [Progress(0)] + LoopEvents(point, |absolutePathFiles|);

      if cancelAt == |absolutePathFiles| {
        cancel := true;  // the host's `cancel_copy` lands here
      }
      assert cancel == (point <= |absolutePathFiles|);
      if !cancel {
        events := events + [Finished];
      }
      TransferEventsCompose(before, point, |absolutePathFiles|);
    }

    /** `_compress_files`: opens the archive, then writes each file under the
        archive resolver's name until the flag is seen. */
    method CompressFiles(cancelAt: nat)
      modifies this, fs
      ensures var point := CheckPoint(old(cancel), cancelAt);
              var n := |absolutePathFiles|;
              && cancel == (old(cancel) || cancelAt < n)
              && events == old(events) + LoopEvents(point, n)
              && fs.zips == old(fs.zips)[ZipPath(to) := ArchiveRun(absolutePathFiles[..Stop(point, n)])]
              && fs.paths == old(fs.paths) + {ZipPath(to)}
              && fs.copies == old(fs.copies)
    {
      var existingFilesInZip: seq<string> := [];
      var total := |absolutePathFiles|;
      var progress := 0;

      var zipFilename := ZipPath(to);
      fs.OpenZip(zipFilename);
      var i := 0;
      while i < total
        invariant 0 <= i <= total
        invariant progress == i
        invariant cancel == old(cancel)
        invariant i > 0 ==> !old(cancel) && i <= cancelAt
        invariant existingFilesInZip == Names(ArchiveRun(absolutePathFiles[..i]))
        invariant fs.zips == old(fs.zips)[zipFilename := ArchiveRun(absolutePathFiles[..i])]
        invariant fs.paths == old(fs.paths) + {zipFilename}
        invariant fs.copies == old(fs.copies)
        invariant events == old(events) + Trail(i)
      {
        if i == cancelAt {
          cancel := true;  // the host's `cancel_copy` lands here
        }
        if cancel {
          events := events + [Canceled];
          LoopEventsStopped(old(events), CheckPoint(old(cancel), cancelAt), total, i);
          return;
        }

        var uniqueFilename := ZipNext(i, zipFilename, existingFilesInZip, old(fs.zips));
        existingFilesInZip := existingFilesInZip + [uniqueFilename];
        progress := progress + 1;
        TrailStep(old(events), i);
        events := events + [Progress(progress)];
        i := i + 1;
      }
      LoopEventsCompleted(old(events), CheckPoint(old(cancel), cancelAt), total);
      assert absolutePathFiles[..i] == absolutePathFiles[..total];
    }

    /** The name under which `_compress_files` writes `file`: the archive
        resolver's answer for its basename. */
    method ArchiveNameFor(existingFilesInZip: seq<string>, file: string) returns (uniqueFilename: string)
      ensures uniqueFilename == EntryName(existingFilesInZip, file, 3)
    {
      var filename := Basename(file);
      uniqueFilename := UniqueArchiveName(existingFilesInZip, filename);
      EntryNameOfFile(existingFilesInZip, file);
    }

    /** One iteration of `_compress_files` past the cancel check: writes
        file `i` into the archive, extending the entries written for the
        files before it. */
    method ZipNext(i: nat, zipFilename: string, existingFilesInZip: seq<string>, ghost base: map<string, seq<Entry>>)
        returns (uniqueFilename: string)
      requires i < |absolutePathFiles|
      requires existingFilesInZip == Names(ArchiveRun(absolutePathFiles[..i]))
      requires fs.zips == base[zipFilename := ArchiveRun(absolutePathFiles[..i])]
      modifies fs`zips
      ensures existingFilesInZip + [uniqueFilename] == Names(ArchiveRun(absolutePathFiles[..i + 1]))
      ensures fs.zips == base[zipFilename := ArchiveRun(absolutePathFiles[..i + 1])]
    {
      var file := absolutePathFiles[i];
      uniqueFilename := ArchiveNameFor(existingFilesInZip, file);
      fs.ZipWrite(zipFilename, file, uniqueFilename);
      ArchiveRunNext(absolutePathFiles, i, existingFilesInZip, uniqueFilename);
    }

    /** The files before `i` have been copied, after the log entries
        `prior`, into a destination that held `existing`. */
    ghost predicate Copied(i: nat, existing: set<string>, prior: seq<Copy>)
      requires i <= |absolutePathFiles|
      reads fs
    {
      && fs.copies == prior + CopyRun(existing, to, absolutePathFiles[..i])
      && fs.paths == existing + Dsts(CopyRun(existing, to, absolutePathFiles[..i]))
    }

    /** One iteration of `_copy_files` past the cancel check: copies file
        `i`, extending the copies made for the files before it. */
    method CopyNext(i: nat, ghost existing: set<string>, ghost prior: seq<Copy>)
      requires i < |absolutePathFiles| && Copied(i, existing, prior)
      modifies fs`paths, fs`copies
      ensures Copied(i + 1, existing, prior)
    {
      var file := absolutePathFiles[i];
      ghost var seen := fs.paths;
      var destPath := DestinationFor(fs, to, file);
      fs.CopyFile(file, destPath);
      CopyRunNext(existing, to, absolutePathFiles, i, prior, seen, destPath);
    }

    /** `_copy_files`: copies each file to `to/basename`, or to the disk
        resolver's answer when that exists, until the flag is seen. */
    method CopyFiles(cancelAt: nat)
      modifies this, fs
      ensures var point := CheckPoint(old(cancel), cancelAt);
              var n := |absolutePathFiles|;
              var run := CopyRun(old(fs.paths), to, absolutePathFiles[..Stop(point, n)]);
              && cancel == (old(cancel) || cancelAt < n)
              && events == old(events) + LoopEvents(point, n)
              && fs.copies == old(fs.copies) + run
              && fs.paths == old(fs.paths) + Dsts(run)
              && fs.zips == old(fs.zips)
    {
      var total := |absolutePathFiles|;
      var progress := 0;
      ghost var existing := fs.paths;
      ghost var point := CheckPoint(cancel, cancelAt);

      var i := 0;
      while i < total
        invariant 0 <= i <= total
        invariant progress == i
        invariant cancel == old(cancel)
        invariant i > 0 ==> !old(cancel) && i <= cancelAt
        invariant Copied(i, existing, old(fs.copies))
        invariant fs.zips == old(fs.zips)
        invariant events == old(events) + Trail(i)
      {
        if i == cancelAt {
          cancel := true;  // the host's `cancel_copy` lands here
        }
        if cancel {
          events := events + [Canceled];
          LoopEventsStopped(old(events), point, total, i);
          assert existing == old(fs.paths);
          return;
        }

        CopyNext(i, existing, old(fs.copies));
        progress := progress + 1;
        TrailStep(old(events), i);
        events := events + [Progress(progress)];
        i := i + 1;
      }
      LoopEventsCompleted(old(events), point, total);
      assert absolutePathFiles[..i] == absolutePathFiles[..total];
      assert existing == old(fs.paths);
    }
  }
}
