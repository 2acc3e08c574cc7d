/** What a transfer run produces, as values: the copies made by the plain
    copy loop, the entries written by the archive loop, and the signals a run
    emits. The thread and worker classes are proved against these.

    Cancellation is observed at numbered checks: check `i < n` is the
    `if self.cancel` before file `i`, check `n` is the final
    `if not self.cancel` after the loop. A run whose host calls `cancel_copy`
    just before check `point` (or before the run, `point == 0`) stops there;
    `point > n` means the host never cancels during the run. */
module Transfer {
  import opened Paths
  import opened Disk
  import opened Naming

  /** The signals a run emits, in order. `Progress` carries the integer
      counter, not the percentage derived from it. */
  datatype Event = Progress(count: nat) | Finished | Canceled | NotFilesFound

  // ---------------------------------------------------------------------------
  // Plain copy

  /** Where `_copy_files` copies `path` into the folder `to` when the paths
      `existing` are present, one step of its per-file code per `stage`:
      3 takes the basename of the source file, 2 joins it onto `to`, 1 keeps
      that path when it does not exist, and 0 asks the disk resolver.
      Callers start at stage 3 with a source path (`src/copy_thread.py`,
      `src/worker.py`) or at stage 2 with a bare file name (`worker.py`);
      `DestinationOfFile` and `DestinationOfJoin` give the result in one
      step. */
  function Destination(existing: set<string>, to: string, path: string, stage: nat): (d: string)
    requires stage <= 3
    ensures d !in existing
    ensures stage == 1 && path !in existing ==> d == path
    decreases stage
  {
    if stage == 3 then Destination(existing, to, Basename(path), 2)
    else if stage == 2 then Destination(existing, to, Join(to, path), 1)
    else if stage == 1 && path !in existing then path
    else DiskUniqueName(existing, path)
  }

  /** A file keeps its name whenever `to/basename(file)` is free, and is
      otherwise renamed by the disk resolver. */
  lemma DestinationOfFile(existing: set<string>, to: string, file: string)
    ensures Join(to, Basename(file)) !in existing ==>
              Destination(existing, to, file, 3) == Join(to, Basename(file))
    ensures Join(to, Basename(file)) in existing ==>
              Destination(existing, to, file, 3) == DiskUniqueName(existing, Join(to, Basename(file)))
  {
    assert Destination(existing, to, file, 3) == Destination(existing, to, Join(to, Basename(file)), 1);
  }

  /** An entry named `name` keeps its name whenever `to/name` is free, and
      is otherwise renamed by the disk resolver. */
  lemma DestinationOfJoin(existing: set<string>, to: string, name: string)
    ensures Join(to, name) !in existing ==> Destination(existing, to, name, 2) == Join(to, name)
    ensures Join(to, name) in existing ==>
              Destination(existing, to, name, 2) == DiskUniqueName(existing, Join(to, name))
  {
    assert Destination(existing, to, name, 2) == Destination(existing, to, Join(to, name), 1);
  }

  /** The copies the plain loop performs over `files` into `to`, when the
      destination starts with the paths `existing`. */
  function CopyRun(existing: set<string>, to: string, files: seq<string>): (r: seq<Copy>)
    ensures |r| == |files|
    decreases |files|
  {
    if files == [] then []
    else
      var prev := CopyRun(existing, to, files[..|files| - 1]);
      var last := files[|files| - 1];
      prev + [Copy(last, Destination(existing + Dsts(prev), to, last, 3))]
  }

  lemma DstsAppend(copies: seq<Copy>, c: Copy)
    ensures Dsts(copies + [c]) == Dsts(copies) + {c.dst}
  {
    assert (copies + [c])[..|copies|] == copies;
  }

  /** Appending one copy to a log after `prior` entries adds its
      destination to the paths. */
  lemma LogAppend(existing: set<string>, prior: seq<Copy>, log: seq<Copy>, c: Copy)
    ensures prior + log + [c] == prior + (log + [c])
    ensures existing + Dsts(log) + {c.dst} == existing + Dsts(log + [c])
  {
    DstsAppend(log, c);
  }

  /** One more iteration of the plain loop. */
  lemma CopyRunStep(existing: set<string>, to: string, files: seq<string>, i: nat)
    requires i < |files|
    ensures CopyRun(existing, to, files[..i + 1]) ==
            CopyRun(existing, to, files[..i]) +
            [Copy(files[i], Destination(existing + Dsts(CopyRun(existing, to, files[..i])), to, files[i], 3))]
  {
    assert files[..i + 1][..i] == files[..i];
  }

  /** One more iteration of the plain loop: with the paths `seen` in place,
      the copy lands on `dst`, which the destination gains, and the log
      (after any `prior` entries) grows by that copy. */
  lemma CopyRunNext(existing: set<string>, to: string, files: seq<string>, i: nat,
                    prior: seq<Copy>, seen: set<string>, dst: string)
    requires i < |files|
    requires seen == existing + Dsts(CopyRun(existing, to, files[..i]))
    requires dst == Destination(seen, to, files[i], 3)
    ensures prior + CopyRun(existing, to, files[..i]) + [Copy(files[i], dst)] == prior + CopyRun(existing, to, files[..i + 1])
    ensures seen + {dst} == existing + Dsts(CopyRun(existing, to, files[..i + 1]))
  {
    CopyRunStep(existing, to, files, i);
    LogAppend(existing, prior, CopyRun(existing, to, files[..i]), Copy(files[i], dst));
  }

  /** A run over a prefix of the files is a prefix of the run. */
  lemma {:induction false} CopyRunPrefix(existing: set<string>, to: string, files: seq<string>, k: nat)
    requires k <= |files|
    ensures CopyRun(existing, to, files[..k]) == CopyRun(existing, to, files)[..k]
    decreases |files|
  {
    if k < |files| {
      var front := files[..|files| - 1];
      CopyRunPrefix(existing, to, front, k);
      assert front[..k] == files[..k];
    } else {
      assert files[..k] == files;
    }
  }

  lemma LastOfPrefix<T>(s: seq<T>, i: nat, x: T)
    requires i < |s| && s[..i + 1] == s[..i] + [x]
    ensures s[i] == x
  {
    assert s[i] == s[..i + 1][i];
  }

  /** Copy `i` of a run is the one the loop makes with the paths present
      before it and the earlier copies in place. */
  lemma CopyRunAt(existing: set<string>, to: string, files: seq<string>, i: nat)
    requires i < |files|
    ensures CopyRun(existing, to, files)[i] ==
            Copy(files[i], Destination(existing + Dsts(CopyRun(existing, to, files)[..i]), to, files[i], 3))
  {
    CopyRunPrefix(existing, to, files, i + 1);
    CopyRunPrefix(existing, to, files, i);
    CopyRunStep(existing, to, files, i);
    var r := CopyRun(existing, to, files);
    LastOfPrefix(r, i, Copy(files[i], Destination(existing + Dsts(r[..i]), to, files[i], 3)));
  }

  /** No overwrite: file `i` is copied to a path that existed neither before
      the run nor as the destination of an earlier file. */
  lemma CopyRunNoOverwrite(existing: set<string>, to: string, files: seq<string>, i: nat)
    requires i < |files|
    ensures CopyRun(existing, to, files)[i].dst !in existing + Dsts(CopyRun(existing, to, files)[..i])
  {
    CopyRunAt(existing, to, files, i);
  }

  /** File `i` goes to `to/basename(file)` whenever that path is free. */
  lemma CopyRunKeepsName(existing: set<string>, to: string, files: seq<string>, i: nat)
    requires i < |files|
    requires Join(to, Basename(files[i])) !in existing + Dsts(CopyRun(existing, to, files)[..i])
    ensures CopyRun(existing, to, files)[i].dst == Join(to, Basename(files[i]))
  {
    CopyRunAt(existing, to, files, i);
    DestinationOfFile(existing + Dsts(CopyRun(existing, to, files)[..i]), to, files[i]);
  }

  /** The destinations are new and pairwise distinct. */
  lemma CopyRunDistinct(existing: set<string>, to: string, files: seq<string>)
    ensures forall i :: 0 <= i < |files| ==> CopyRun(existing, to, files)[i].dst !in existing
    ensures forall i, j :: 0 <= i < j < |files| ==>
              CopyRun(existing, to, files)[i].dst != CopyRun(existing, to, files)[j].dst
  {
    var r := CopyRun(existing, to, files);
    forall j | 0 <= j < |files|
      ensures r[j].dst !in existing
      ensures forall i :: 0 <= i < j ==> r[i].dst != r[j].dst
    {
      CopyRunNoOverwrite(existing, to, files, j);
      forall i | 0 <= i < j ensures r[i].dst != r[j].dst {
        assert r[..j][i] == r[i];
      }
    }
  }

  /** A copy to a path that is not yet present adds exactly one path. */
  lemma FreshCopyCard(existing: set<string>, log: seq<Copy>, c: Copy)
    requires c.dst !in existing + Dsts(log)
    ensures |existing + Dsts(log + [c])| == |existing + Dsts(log)| + 1
  {
    DstsAppend(log, c);
    assert existing + Dsts(log + [c]) == (existing + Dsts(log)) + {c.dst};
  }

  /** So the destination gains exactly one path per file. */
  lemma {:induction false} CopyRunAddsOnePathPerFile(existing: set<string>, to: string, files: seq<string>)
    ensures |existing + Dsts(CopyRun(existing, to, files))| == |existing| + |files|
    decreases |files|
  {
    if files != [] {
      var front := files[..|files| - 1];
      var prev := CopyRun(existing, to, front);
      CopyRunAddsOnePathPerFile(existing, to, front);
      var last := files[|files| - 1];
      FreshCopyCard(existing, prev, Copy(last, Destination(existing + Dsts(prev), to, last, 3)));
    } else {
      assert Dsts(CopyRun(existing, to, files)) == {};
    }
  }

  // ---------------------------------------------------------------------------
  // Archive

  /** The name under which `_compress_files` writes `path` when the archive
      already holds `existing`, one step of its per-file code per `stage`
      (numbered as in `Destination`): 3 is the loop's source path as read
      from the list, 2 takes its basename, 1 keeps that name when no entry
      has it (the archive resolver's loop test fails at once), and 0 runs
      the archive resolver. Callers start at stage 3; `EntryNameOfFile`
      gives the result in one step. */
  function EntryName(existing: seq<string>, path: string, stage: nat): (name: string)
    requires stage <= 3
    ensures name !in existing
    ensures stage == 1 && path !in existing ==> name == path
    decreases stage
  {
    if stage == 3 then EntryName(existing, path, 2)
    else if stage == 2 then EntryName(existing, Basename(path), 1)
    else if stage == 1 && path !in existing then path
    else ArchiveUniqueName(existing, path)
  }

  /** Each file is written under the archive resolver's answer for its
      basename. */
  lemma EntryNameOfFile(existing: seq<string>, file: string)
    ensures EntryName(existing, file, 3) == ArchiveUniqueName(existing, Basename(file))
  {
    assert EntryName(existing, file, 3) == EntryName(existing, Basename(file), 1);
  }

  /** The entries the archive loop writes, starting from an empty archive. */
  function ArchiveRun(files: seq<string>): (r: seq<Entry>)
    ensures |r| == |files|
    decreases |files|
  {
    if files == [] then []
    else
      var prev := ArchiveRun(files[..|files| - 1]);
      var last := files[|files| - 1];
      prev + [Entry(last, EntryName(Names(prev), last, 3))]
  }

  lemma NamesAppend(entries: seq<Entry>, e: Entry)
    ensures Names(entries + [e]) == Names(entries) + [e.name]
  {
  }

  /** One more iteration of the archive loop. */
  lemma ArchiveRunStep(files: seq<string>, i: nat)
    requires i < |files|
    ensures ArchiveRun(files[..i + 1]) ==
            ArchiveRun(files[..i]) + [Entry(files[i], EntryName(Names(ArchiveRun(files[..i])), files[i], 3))]
  {
    assert files[..i + 1][..i] == files[..i];
  }

  /** One more iteration of the archive loop: with the names `names`
      written, the file is written as `name`, which the names gain. */
  lemma ArchiveRunNext(files: seq<string>, i: nat, names: seq<string>, name: string)
    requires i < |files|
    requires names == Names(ArchiveRun(files[..i]))
    requires name == EntryName(names, files[i], 3)
    ensures ArchiveRun(files[..i]) + [Entry(files[i], name)] == ArchiveRun(files[..i + 1])
    ensures names + [name] == Names(ArchiveRun(files[..i + 1]))
  {
    ArchiveRunStep(files, i);
    NamesAppend(ArchiveRun(files[..i]), Entry(files[i], name));
  }

  lemma {:induction false} ArchiveRunPrefix(files: seq<string>, k: nat)
    requires k <= |files|
    ensures ArchiveRun(files[..k]) == ArchiveRun(files)[..k]
    decreases |files|
  {
    if k < |files| {
      var front := files[..|files| - 1];
      ArchiveRunPrefix(front, k);
      assert front[..k] == files[..k];
    } else {
      assert files[..k] == files;
    }
  }

  /** Entry `i` of a run is the one the loop writes with the earlier
      entries in place. */
  lemma ArchiveRunAt(files: seq<string>, i: nat)
    requires i < |files|
    ensures ArchiveRun(files)[i] == Entry(files[i], EntryName(Names(ArchiveRun(files)[..i]), files[i], 3))
  {
    ArchiveRunPrefix(files, i + 1);
    ArchiveRunPrefix(files, i);
    ArchiveRunStep(files, i);
    var r := ArchiveRun(files);
    LastOfPrefix(r, i, Entry(files[i], EntryName(Names(r[..i]), files[i], 3)));
  }

  /** Entry `i` is named after its file's basename whenever no earlier entry
      took that name, and otherwise gets a name no earlier entry has. */
  lemma ArchiveRunEntry(files: seq<string>, i: nat)
    requires i < |files|
    ensures ArchiveRun(files)[i].name !in Names(ArchiveRun(files)[..i])
    ensures Basename(files[i]) !in Names(ArchiveRun(files)[..i]) ==> ArchiveRun(files)[i].name == Basename(files[i])
  {
    ArchiveRunAt(files, i);
    assert EntryName(Names(ArchiveRun(files)[..i]), files[i], 3)
        == EntryName(Names(ArchiveRun(files)[..i]), Basename(files[i]), 1);
  }

  /** All entry names in the archive are pairwise distinct. */
  lemma ArchiveRunDistinct(files: seq<string>)
    ensures forall i, j :: 0 <= i < j < |files| ==> ArchiveRun(files)[i].name != ArchiveRun(files)[j].name
  {
    var r := ArchiveRun(files);
    forall i, j | 0 <= i < j < |files| ensures r[i].name != r[j].name {
      ArchiveRunEntry(files, j);
      assert Names(r[..j])[i] == r[i].name;
    }
  }

  // ---------------------------------------------------------------------------
  // Signals

  /** The check at which the run stops: `cancel_copy` before the run makes
      it the first one. */
  function CheckPoint(preCanceled: bool, cancelAt: nat): nat {
    if preCanceled then 0 else cancelAt
  }

  /** The number of files transferred before the run stops. */
  function Stop(point: nat, n: nat): nat {
    if point < n then point else n
  }

  /** `Progress(1)`, ..., `Progress(k)`: one per transferred file. */
  function Trail(k: nat): seq<Event> {
    seq(k, i requires 0 <= i < k => Progress(i + 1))
  }

  /** What a transfer loop over `n` files emits. */
  function LoopEvents(point: nat, n: nat): seq<Event> {
    Trail(Stop(point, n)) + (if point < n then [Canceled] else [])
  }

  /** The signals after one more transferred file. */
  lemma TrailStep(before: seq<Event>, k: nat)
    ensures before + Trail(k) + [Progress(k + 1)] == before + Trail(k + 1)
  {
    assert Trail(k + 1) == Trail(k) + [Progress(k + 1)];
  }

  /** The loop's signals when its check `i` sees the flag ... */
  lemma LoopEventsStopped(before: seq<Event>, point: nat, n: nat, i: nat)
    requires i == point < n
    ensures before + Trail(i) + [Canceled] == before + LoopEvents(point, n)
    ensures Stop(point, n) == i
  {
  }

  /** ... and when it runs to the end. */
  lemma LoopEventsCompleted(before: seq<Event>, point: nat, n: nat)
    requires point >= n
    ensures before + Trail(n) == before + LoopEvents(point, n)
    ensures Stop(point, n) == n
  {
  }

  /** What a whole run over `n` files emits: progress 0, the loop's signals,
      and `finished` when the flag is still clear at the final check. */
  function TransferEvents(point: nat, n: nat): seq<Event> {
    [Progress(0)] + LoopEvents(point, n) + (if point > n then [Finished] else [])
  }

  /** A run's signals are progress 0, the loop's, then the final check's. */
  lemma TransferEventsCompose(before: seq<Event>, point: nat, n: nat)
    ensures before + [Progress(0)] + LoopEvents(point, n) + (if point > n then [Finished] else []) ==
            before + TransferEvents(point, n)
  {
  }

  /** Progress 0 comes before anything else, the counter rises by one per
      event and never exceeds the number of files, and `not_files_found` is
      never emitted. */
  lemma TransferProgress(point: nat, n: nat)
    ensures TransferEvents(point, n)[0] == Progress(0)
    ensures forall i :: 0 <= i < |TransferEvents(point, n)| && TransferEvents(point, n)[i].Progress? ==>
              TransferEvents(point, n)[i].count == i <= n
    ensures NotFilesFound !in TransferEvents(point, n)
  {
    var ev := TransferEvents(point, n);
    var k := Stop(point, n);
    assert forall i :: 0 <= i <= k ==> ev[i] == Progress(i);
    assert forall i :: k < i < |ev| ==> !ev[i].Progress?;
  }

  /** `finished` is emitted iff the flag is clear at the final check,
      `copy_canceled` iff a per-file check saw it set, never both, and each at
      most once, as the last signal. */
  lemma TransferOutcome(point: nat, n: nat)
    ensures Finished in TransferEvents(point, n) <==> point > n
    ensures Canceled in TransferEvents(point, n) <==> point < n
    ensures Finished in TransferEvents(point, n) || Canceled in TransferEvents(point, n) ==>
              var ev := TransferEvents(point, n);
              ev[|ev| - 1] in {Finished, Canceled} && Finished !in ev[..|ev| - 1] && Canceled !in ev[..|ev| - 1]
  {
    var ev := TransferEvents(point, n);
    var k := Stop(point, n);
    assert forall i :: 0 <= i <= k ==> ev[i] == Progress(i);
    if point < n {
      assert ev == [Progress(0)] + Trail(k) + [Canceled];
      assert ev[..|ev| - 1] == [Progress(0)] + Trail(k);
    } else if point > n {
      assert ev == [Progress(0)] + Trail(k) + [Finished];
      assert ev[..|ev| - 1] == [Progress(0)] + Trail(k);
    } else {
      assert ev == [Progress(0)] + Trail(k);
    }
  }

  /** An uncanceled run reports 0, 1, ..., n and then `finished`; an empty
      list does the same with n = 0. */
  lemma UncanceledRun(point: nat, n: nat)
    requires point > n
    ensures TransferEvents(point, n) == seq(n + 1, i requires 0 <= i <= n => Progress(i)) + [Finished]
  {
  }

  /** `cancel_copy` before `run` transfers nothing: the run emits progress 0
      and `copy_canceled` (nothing more for an empty list), never
      `finished`. */
  lemma CanceledBeforeRun(n: nat, cancelAt: nat)
    ensures Stop(CheckPoint(true, cancelAt), n) == 0
    ensures TransferEvents(CheckPoint(true, cancelAt), n) ==
              if n > 0 then [Progress(0), Canceled] else [Progress(0)]
  {
  }
}
