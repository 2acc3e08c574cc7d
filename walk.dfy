/** What the root `Worker.run` (worker.py) produces, as values: it walks the
    source tree with `os.walk`, checks the cancel flag before every file it
    visits, and copies the image files (by their lower-cased name) into the
    destination folder, by name, resolving collisions with the disk
    resolver.

    The listing `os.walk(source)` yields is an input: a sequence of
    directories, each with its path and its file names, in visiting order. */
module Walk {
  import opened Paths
  import opened Disk
  import opened FileOptions
  import opened Transfer

  /** One directory as `os.walk` yields it: its path and the names of its
      files (its sub-directory names play no part). */
  datatype Dir = Dir(root: string, files: seq<string>)

  /** One file the walk visits: its directory and its name. */
  datatype Found = Found(root: string, name: string)

  /** The files of one directory, in order. */
  function Visits(d: Dir): (r: seq<Found>)
    ensures |r| == |d.files|
    ensures forall j :: 0 <= j < |r| ==> r[j] == Found(d.root, d.files[j])
  {
    seq(|d.files|, j requires 0 <= j < |d.files| => Found(d.root, d.files[j]))
  }

  /** Every file of the walk, in visiting order. */
  function Flat(walk: seq<Dir>): seq<Found>
    decreases |walk|
  {
    if walk == [] then [] else Flat(walk[..|walk| - 1]) + Visits(walk[|walk| - 1])
  }

  /** `total = sum(len(files) for _, _, files in os.walk(source))`. */
  function Total(walk: seq<Dir>): nat
    decreases |walk|
  {
    if walk == [] then 0 else Total(walk[..|walk| - 1]) + |walk[|walk| - 1].files|
  }

  /** `total` counts every visited file, images or not. */
  lemma {:induction false} TotalCountsEveryFile(walk: seq<Dir>)
    ensures Total(walk) == |Flat(walk)|
    decreases |walk|
  {
    if walk != [] {
      TotalCountsEveryFile(walk[..|walk| - 1]);
    }
  }

  /** The outer loop moves on to the next directory. */
  lemma FlatStep(walk: seq<Dir>, w: nat)
    requires w < |walk|
    ensures Flat(walk[..w + 1]) == Flat(walk[..w]) + Visits(walk[w])
  {
    assert walk[..w + 1][..w] == walk[..w];
  }

  /** The directories before `w` are visited first. */
  lemma {:induction false} FlatPrefix(walk: seq<Dir>, w: nat)
    requires w <= |walk|
    ensures |Flat(walk[..w])| <= |Flat(walk)|
    ensures Flat(walk[..w]) == Flat(walk)[..|Flat(walk[..w])|]
    decreases |walk|
  {
    if w < |walk| {
      var front := walk[..|walk| - 1];
      FlatPrefix(front, w);
      assert front[..w] == walk[..w];
      assert Flat(walk) == Flat(front) + Visits(walk[|walk| - 1]);
    } else {
      assert walk[..w] == walk;
    }
  }

  /** The directories before `w` account for the first `Total(walk[..w])`
      visited files. */
  lemma FlatOffset(walk: seq<Dir>, w: nat)
    requires w <= |walk|
    ensures Total(walk[..w]) == |Flat(walk[..w])| <= |Flat(walk)|
    ensures Flat(walk[..w]) == Flat(walk)[..Total(walk[..w])]
  {
    FlatPrefix(walk, w);
    TotalCountsEveryFile(walk[..w]);
  }

  /** Directory `w`'s files are visited one after the other, after the
      `Total(walk[..w])` files of the directories before it. */
  lemma FlatDir(walk: seq<Dir>, w: nat)
    requires w < |walk|
    ensures Total(walk[..w]) + |walk[w].files| == Total(walk[..w + 1]) <= |Flat(walk)|
    ensures Flat(walk)[Total(walk[..w])..Total(walk[..w + 1])] == Visits(walk[w])
  {
    FlatOffset(walk, w);
    FlatOffset(walk, w + 1);
    FlatStep(walk, w);
    var here := Flat(walk[..w + 1]);
    assert Flat(walk)[Total(walk[..w])..Total(walk[..w + 1])] == here[|Flat(walk[..w])|..];
  }

  /** So the file at position `start + j` is file `j` of that directory. */
  lemma VisitAt(found: seq<Found>, start: nat, d: Dir, j: nat)
    requires start + |d.files| <= |found| && j < |d.files|
    requires found[start..start + |d.files|] == Visits(d)
    ensures found[start + j] == Found(d.root, d.files[j])
  {
    assert found[start + j] == found[start..start + |d.files|][j];
  }

  lemma VisitsAt(found: seq<Found>, start: nat, d: Dir)
    requires start + |d.files| <= |found|
    requires found[start..start + |d.files|] == Visits(d)
    ensures forall j :: 0 <= j < |d.files| ==> found[start + j] == Found(d.root, d.files[j])
  {
    forall j | 0 <= j < |d.files|
      ensures found[start + j] == Found(d.root, d.files[j])
    {
      VisitAt(found, start, d, j);
    }
  }

  /** After the last directory, every file has been visited. */
  lemma FlatAll(walk: seq<Dir>)
    ensures Total(walk[..|walk|]) == |Flat(walk)|
  {
    assert walk[..|walk|] == walk;
    TotalCountsEveryFile(walk);
  }

  /** Whether the root worker copies a visited file: line 24's test
      `file.lower().endswith(('.png', '.jpg', '.jpeg', '.gif', '.bmp'))`,
      whose tuple is `image_extensions`. */
  predicate IsImage(f: Found) {
    Eligible(f.name, Images)
  }

  /** The copies the root worker makes over the visited files `found`, into
      `to`, when the destination starts with the paths `existing`: each image
      from `root/name` to `to/name`, or to the disk resolver's answer when that
      exists; other files are skipped. */
  function WalkRun(existing: set<string>, to: string, found: seq<Found>): (r: seq<Copy>)
    ensures |r| <= |found|
    decreases |found|
  {
    if found == [] then []
    else
      var prev := WalkRun(existing, to, found[..|found| - 1]);
      var f := found[|found| - 1];
      if IsImage(f) then prev + [Copy(Join(f.root, f.name), Destination(existing + Dsts(prev), to, f.name, 2))]
      else prev
  }

  /** One more visited file. */
  lemma WalkRunStep(existing: set<string>, to: string, found: seq<Found>, k: nat)
    requires k < |found|
    ensures var prev := WalkRun(existing, to, found[..k]);
            var f := found[k];
            WalkRun(existing, to, found[..k + 1]) ==
              if IsImage(f) then prev + [Copy(Join(f.root, f.name), Destination(existing + Dsts(prev), to, f.name, 2))]
              else prev
  {
    assert found[..k + 1][..k] == found[..k];
  }

  /** One more visited image: with the paths `seen` in place it is copied to
      `dst`, which the destination gains, and the log grows by that copy. */
  lemma WalkRunNext(existing: set<string>, to: string, found: seq<Found>, k: nat,
                    prior: seq<Copy>, seen: set<string>, dst: string)
    requires k < |found| && IsImage(found[k])
    requires seen == existing + Dsts(WalkRun(existing, to, found[..k]))
    requires dst == Destination(seen, to, found[k].name, 2)
    ensures prior + WalkRun(existing, to, found[..k]) + [Copy(Join(found[k].root, found[k].name), dst)] ==
            prior + WalkRun(existing, to, found[..k + 1])
    ensures seen + {dst} == existing + Dsts(WalkRun(existing, to, found[..k + 1]))
  {
    WalkRunStep(existing, to, found, k);
    LogAppend(existing, prior, WalkRun(existing, to, found[..k]), Copy(Join(found[k].root, found[k].name), dst));
  }

  /** One more visited file that is not an image changes nothing. */
  lemma WalkRunSkip(existing: set<string>, to: string, found: seq<Found>, k: nat)
    requires k < |found| && !IsImage(found[k])
    ensures WalkRun(existing, to, found[..k + 1]) == WalkRun(existing, to, found[..k])
  {
    WalkRunStep(existing, to, found, k);
  }

  /** The source paths of the images among `found`, in visiting order. */
  function ImageSources(found: seq<Found>): seq<string>
    decreases |found|
  {
    if found == [] then []
    else
      var f := found[|found| - 1];
      ImageSources(found[..|found| - 1]) + if IsImage(f) then [Join(f.root, f.name)] else []
  }

  /** The source path of each copy, in order. */
  function Sources(copies: seq<Copy>): (r: seq<string>)
    ensures |r| == |copies|
    ensures forall i :: 0 <= i < |copies| ==> r[i] == copies[i].src
  {
    seq(|copies|, i requires 0 <= i < |copies| => copies[i].src)
  }

  lemma SourcesAppend(copies: seq<Copy>, c: Copy)
    ensures Sources(copies + [c]) == Sources(copies) + [c.src]
  {
  }

  /** A file is copied iff it is an image: the copies' sources are exactly
      the images' paths, in visiting order, so the counter ends at the number
      of images. */
  lemma {:induction false} WalkRunCopiesImages(existing: set<string>, to: string, found: seq<Found>)
    ensures Sources(WalkRun(existing, to, found)) == ImageSources(found)
    decreases |found|
  {
    if found != [] {
      var front := found[..|found| - 1];
      var f := found[|found| - 1];
      var prev := WalkRun(existing, to, front);
      WalkRunCopiesImages(existing, to, front);
      if IsImage(f) {
        SourcesAppend(prev, Copy(Join(f.root, f.name), Destination(existing + Dsts(prev), to, f.name, 2)));
      }
    }
  }

  /** No copy overwrites: each image lands on a path that was not there, so
      the destination gains one path per copy. */
  lemma {:induction false} WalkRunAddsOnePathPerCopy(existing: set<string>, to: string, found: seq<Found>)
    ensures |existing + Dsts(WalkRun(existing, to, found))| == |existing| + |WalkRun(existing, to, found)|
    decreases |found|
  {
    if found != [] {
      var front := found[..|found| - 1];
      var f := found[|found| - 1];
      var prev := WalkRun(existing, to, front);
      WalkRunAddsOnePathPerCopy(existing, to, front);
      if IsImage(f) {
        FreshCopyCard(existing, prev, Copy(Join(f.root, f.name), Destination(existing + Dsts(prev), to, f.name, 2)));
      }
    }
  }

  /** What the root `run` emits after copying `copied` images of a walk that
      visits `n` files: progress 0, one progress signal per image, and
      `finished` when the flag is clear at the final check. It never emits a
      cancel signal. */
  function WalkEvents(point: nat, n: nat, copied: nat): seq<Event> {
    [Progress(0)] + Trail(copied) + (if point > n then [Finished] else [])
  }

  lemma WalkEventsCompose(before: seq<Event>, point: nat, n: nat, copied: nat)
    ensures before + [Progress(0)] + Trail(copied) + (if point > n then [Finished] else []) ==
            before + WalkEvents(point, n, copied)
  {
  }

  /** The counter rises by one per signal and never exceeds the number of
      visited files, `finished` comes iff the flag is clear at the final
      check, and no cancel signal is emitted. */
  lemma WalkEventsShape(point: nat, n: nat, copied: nat)
    requires copied <= n
    ensures var ev := WalkEvents(point, n, copied);
            && ev[0] == Progress(0)
            && (forall i :: 0 <= i < |ev| && ev[i].Progress? ==> ev[i].count == i <= n)
            && (Finished in ev <==> point > n)
            && Canceled !in ev
  {
    var ev := WalkEvents(point, n, copied);
    assert forall i :: 0 <= i <= copied ==> ev[i] == Progress(i);
    assert forall i :: copied < i < |ev| ==> ev[i] == Finished;
  }

  /** So the counter never exceeds `total`: the images copied from a prefix
      of the walk are at most all the files it visits. */
  lemma WalkCopiesWithinTotal(walk: seq<Dir>, existing: set<string>, to: string, k: nat)
    requires k <= |Flat(walk)|
    ensures |WalkRun(existing, to, Flat(walk)[..k])| <= Total(walk)
  {
    TotalCountsEveryFile(walk);
  }
}
