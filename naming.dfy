/** The two name-collision resolvers of the transfer engine.

    The disk resolver (`__get_unique_filename` in src/copy_thread.py, and the
    identical helpers of src/worker.py and worker.py) probes `stem_1.ext`,
    `stem_2.ext`, ... against the filesystem and returns the first absent one.

    The archive resolver (`__get_unique_filename_zip` in src/copy_thread.py)
    probes against the names already written to the zip, and its suffixes are
    cumulative: the stem grows `photo`, `photo_1`, `photo_1_2`, ... */
module Naming {
  import opened Paths
  import opened Disk

  // ---------------------------------------------------------------------------
  // Set cardinality facts used by the termination arguments

  lemma {:induction false} SubsetCard<T>(a: set<T>, b: set<T>)
    requires a <= b
    ensures |a| <= |b|
    decreases a
  {
    if a != {} {
      var x :| x in a;
      SubsetCard(a - {x}, b - {x});
    }
  }

  lemma ProperSubsetCard<T>(a: set<T>, b: set<T>)
    requires a < b
    ensures |a| < |b|
  {
    assert b == a + (b - a);
  }

  lemma {:induction false} SeqSetCard<T>(s: seq<T>, a: set<T>)
    requires forall x :: x in a ==> x in s
    ensures |a| <= |s|
    decreases |s|
  {
    if s != [] {
      var last := s[|s| - 1];
      assert forall x :: x in a - {last} ==> x in s[..|s| - 1];
      SeqSetCard(s[..|s| - 1], a - {last});
    } else {
      assert a == {};
    }
  }

  // ---------------------------------------------------------------------------
  // Disk resolver

  /** The probe `f"{name}_{counter}{ext}"`. */
  function Candidate(stem: string, ext: string, k: nat): string {
    stem + "_" + DecimalString(k) + ext
  }

  /** `k |-> stem_k.ext` is injective. */
  lemma CandidateInjective(stem: string, ext: string, i: nat, j: nat)
    requires Candidate(stem, ext, i) == Candidate(stem, ext, j)
    ensures i == j
  {
    var a, b := DecimalString(i), DecimalString(j);
    var c := Candidate(stem, ext, i);
    assert |a| == |b|;
    assert c[|stem| + 1..|stem| + 1 + |a|] == a;
    assert Candidate(stem, ext, j)[|stem| + 1..|stem| + 1 + |b|] == b;
    DecimalStringInjective(i, j);
  }

  /** The probes made before the counter reaches `k`. */
  function Probed(stem: string, ext: string, k: nat): set<string> {
    set j | 1 <= j < k :: Candidate(stem, ext, j)
  }

  lemma {:induction false} ProbedCard(stem: string, ext: string, k: nat)
    requires k >= 1
    ensures |Probed(stem, ext, k)| == k - 1
  {
    if k > 1 {
      ProbedCard(stem, ext, k - 1);
      var last := Candidate(stem, ext, k - 1);
      assert Probed(stem, ext, k) == Probed(stem, ext, k - 1) + {last};
      forall j | 1 <= j < k - 1 ensures Candidate(stem, ext, j) != last {
        if Candidate(stem, ext, j) == last {
          CandidateInjective(stem, ext, j, k - 1);
        }
      }
    } else {
      assert Probed(stem, ext, k) == {};
    }
  }

  /** Every probe before `k` hit an existing path, so the counter cannot pass
      `|existing| + 1`: the loop's termination argument. */
  lemma ProbedBound(existing: set<string>, stem: string, ext: string, k: nat)
    requires k >= 1
    requires forall j :: 1 <= j < k ==> Candidate(stem, ext, j) in existing
    ensures k - 1 <= |existing|
  {
    ProbedCard(stem, ext, k);
    SubsetCard(Probed(stem, ext, k), existing);
  }

  /** The counter at which the disk resolver's loop stops, when it starts at
      `k`: the least `r >= k` whose probe is absent. */
  function FirstFreeFrom(existing: set<string>, stem: string, ext: string, k: nat): (r: nat)
    requires k >= 1
    requires forall j :: 1 <= j < k ==> Candidate(stem, ext, j) in existing
    ensures k <= r <= |existing| + 1
    ensures Candidate(stem, ext, r) !in existing
    ensures forall j :: 1 <= j < r ==> Candidate(stem, ext, j) in existing
    decreases |existing| + 1 - k
  {
    if Candidate(stem, ext, k) !in existing then
      ProbedBound(existing, stem, ext, k);
      k
    else
      ProbedBound(existing, stem, ext, k + 1);
      FirstFreeFrom(existing, stem, ext, k + 1)
  }

  /** `__get_unique_filename(path)` as a value: `stem_k.ext` for the least
      `k >= 1` that does not exist. */
  function DiskUniqueName(existing: set<string>, path: string): (r: string)
    ensures r !in existing
    ensures r != path
  {
    var (stem, ext) := SplitExt(path);
    var r := Candidate(stem, ext, FirstFreeFrom(existing, stem, ext, 1));
    assert |r| > |path|;
    r
  }

  /** The resolver's answer is `stem_k.ext` exactly for the least absent `k`. */
  lemma DiskUniqueNameIsLeastFree(existing: set<string>, path: string, k: nat)
    requires k >= 1
    ensures DiskUniqueName(existing, path) == Candidate(SplitExt(path).0, SplitExt(path).1, k)
        <==> (Candidate(SplitExt(path).0, SplitExt(path).1, k) !in existing &&
              forall j :: 1 <= j < k ==> Candidate(SplitExt(path).0, SplitExt(path).1, j) in existing)
  {
    var (stem, ext) := SplitExt(path);
    var f := FirstFreeFrom(existing, stem, ext, 1);
    if DiskUniqueName(existing, path) == Candidate(stem, ext, k) {
      CandidateInjective(stem, ext, f, k);
    }
    if Candidate(stem, ext, k) !in existing &&
       forall j :: 1 <= j < k ==> Candidate(stem, ext, j) in existing {
      assert !(k < f) && !(f < k);
    }
  }

  /** `__get_unique_filename` (src/copy_thread.py, src/worker.py, worker.py):
      the `while os.path.exists(...)` counter loop. */
  method UniqueDiskName(fs: FileSystem, path: string) returns (r: string)
    ensures r == DiskUniqueName(fs.paths, path)
    ensures r !in fs.paths && r != path
  {
    var stem, ext := SplitExt(path).0, SplitExt(path).1;
    var counter := 1;
    while Candidate(stem, ext, counter) in fs.paths
      invariant counter >= 1
      invariant forall j :: 1 <= j < counter ==> Candidate(stem, ext, j) in fs.paths
      decreases |fs.paths| + 1 - counter
    {
      ProbedBound(fs.paths, stem, ext, counter + 1);
      counter := counter + 1;
    }
    r := Candidate(stem, ext, counter);
    DiskUniqueNameIsLeastFree(fs.paths, path, counter);
  }

  // ---------------------------------------------------------------------------
  // Archive resolver

  /** The entries at least `n` characters long. */
  function LongEntries(existing: seq<string>, n: nat): set<string> {
    set x | x in existing && |x| >= n
  }

  /** The stem the archive resolver's loop settles on, from `stem` with the
      counter at `counter`; each probe is a member of `existing` longer than
      the one before, which is why the loop stops. */
  function ArchiveStem(existing: seq<string>, stem: string, ext: string, counter: nat): (r: string)
    ensures r + ext !in existing
    ensures |stem| <= |r| && r[..|stem|] == stem
    decreases LongEntries(existing, |stem| + |ext|)
  {
    if stem + ext !in existing then stem
    else
      var next := stem + "_" + DecimalString(counter);
      assert stem + ext !in LongEntries(existing, |next| + |ext|);
      var r := ArchiveStem(existing, next, ext, counter + 1);
      assert r[..|stem|] == next[..|stem|];
      r
  }

  /** `_c_(c+1)..._(c+n-1)`: the cumulative suffix after `n` collisions. */
  function Chain(counter: nat, n: nat): string
    decreases n
  {
    if n == 0 then "" else "_" + DecimalString(counter) + Chain(counter + 1, n - 1)
  }

  /** How many times the archive resolver's loop body runs from `stem` with
      the counter at `counter`. */
  function Collisions(existing: seq<string>, stem: string, ext: string, counter: nat): (n: nat)
    ensures n <= |LongEntries(existing, |stem| + |ext|)|
    decreases LongEntries(existing, |stem| + |ext|)
  {
    if stem + ext !in existing then 0
    else
      var next := stem + "_" + DecimalString(counter);
      assert stem + ext !in LongEntries(existing, |next| + |ext|);
      ProperSubsetCard(LongEntries(existing, |next| + |ext|), LongEntries(existing, |stem| + |ext|));
      Collisions(existing, next, ext, counter + 1) + 1
  }

  lemma ChainStep(stem: string, counter: nat, n: nat)
    ensures stem + Chain(counter, n + 1) == stem + "_" + DecimalString(counter) + Chain(counter + 1, n)
  {
  }

  /** The settled stem is the starting stem followed by a cumulative chain of
      one suffix per collision. */
  lemma {:induction false} ArchiveStemShape(existing: seq<string>, stem: string, ext: string, counter: nat)
    ensures ArchiveStem(existing, stem, ext, counter) == stem + Chain(counter, Collisions(existing, stem, ext, counter))
    decreases LongEntries(existing, |stem| + |ext|)
  {
    if stem + ext in existing {
      var next := stem + "_" + DecimalString(counter);
      assert stem + ext !in LongEntries(existing, |next| + |ext|);
      ArchiveStemShape(existing, next, ext, counter + 1);
      ChainStep(stem, counter, Collisions(existing, next, ext, counter + 1));
    } else {
      assert stem + Chain(counter, 0) == stem;
    }
  }

  /** `__get_unique_filename_zip(existing, original)` as a value. */
  function ArchiveUniqueName(existing: seq<string>, original: string): (r: string)
    ensures r !in existing
    ensures original !in existing ==> r == original
  {
    var (stem, ext) := SplitExt(original);
    ArchiveStem(existing, stem, ext, 1) + ext
  }

  /** The loop runs at most once per entry already written. */
  lemma CollisionsBound(existing: seq<string>, stem: string, ext: string, counter: nat)
    ensures Collisions(existing, stem, ext, counter) <= |existing|
  {
    SeqSetCard(existing, LongEntries(existing, |stem| + |ext|));
  }

  /** The archive name keeps the extension and inserts `_1_2..._n` before it,
      where the loop ran `n` times and `n` is at most the number of entries
      already written. */
  lemma ArchiveUniqueNameShape(existing: seq<string>, original: string)
    ensures Collisions(existing, SplitExt(original).0, SplitExt(original).1, 1) <= |existing|
    ensures ArchiveUniqueName(existing, original) ==
              SplitExt(original).0 + Chain(1, Collisions(existing, SplitExt(original).0, SplitExt(original).1, 1)) +
              SplitExt(original).1
  {
    var stem, ext := SplitExt(original).0, SplitExt(original).1;
    ArchiveStemShape(existing, stem, ext, 1);
    CollisionsBound(existing, stem, ext, 1);
  }

  /** `__get_unique_filename_zip`: the `while f"{name}{ext}" in existing_files`
      loop that grows the stem. */
  method UniqueArchiveName(existing: seq<string>, original: string) returns (r: string)
    ensures r == ArchiveUniqueName(existing, original)
    ensures r !in existing
    ensures original !in existing ==> r == original
  {
    var name, ext := SplitExt(original).0, SplitExt(original).1;
    var counter := 1;
    while name + ext in existing
      invariant ArchiveStem(existing, name, ext, counter) == ArchiveStem(existing, SplitExt(original).0, ext, 1)
      decreases LongEntries(existing, |name| + |ext|)
    {
      var next := name + "_" + DecimalString(counter);
      assert name + ext !in LongEntries(existing, |next| + |ext|);
      name := next;
      counter := counter + 1;
    }
    r := name + ext;
  }

  // ---------------------------------------------------------------------------
  // The two resolvers on the same collision

  lemma PhotoSplit()
    ensures SplitExt("photo.jpg") == ("photo", ".jpg")
  {
    assert "photo" + "." + "jpg" == "photo.jpg";
    assert "photo"[0] == 'p';
    SplitExtOfName("photo", "jpg");
  }

  /** The archive resolver at a collision: one more suffix on the stem ... */
  lemma ArchiveStemCollides(existing: seq<string>, stem: string, ext: string, counter: nat)
    requires stem + ext in existing
    ensures ArchiveStem(existing, stem, ext, counter) ==
            ArchiveStem(existing, stem + "_" + DecimalString(counter), ext, counter + 1)
  {
  }

  /** ... and where it stops. */
  lemma ArchiveStemSettles(existing: seq<string>, stem: string, ext: string, counter: nat)
    requires stem + ext !in existing
    ensures ArchiveStem(existing, stem, ext, counter) == stem
  {
  }

  lemma SuffixedStems(stem: string)
    ensures stem + "_" + DecimalString(1) == stem + "_1"
    ensures stem + "_1" + "_" + DecimalString(2) == stem + "_1_2"
  {
    assert DecimalString(1) == "1" && DecimalString(2) == "2";
  }

  /** A third copy of a name lands in the archive with the cumulative suffix
      `_1_2` ... */
  lemma ArchiveThirdCopy(original: string)
    ensures var stem, ext := SplitExt(original).0, SplitExt(original).1;
            ArchiveUniqueName([original, stem + "_1" + ext], original) == stem + "_1_2" + ext
  {
    var stem, ext := SplitExt(original).0, SplitExt(original).1;
    var e := [original, stem + "_1" + ext];
    SuffixedStems(stem);
    ArchiveStemCollides(e, stem, ext, 1);
    assert stem + "_1" + ext == e[1];
    ArchiveStemCollides(e, stem + "_1", ext, 2);
    assert |stem + "_1_2" + ext| != |e[0]| && |stem + "_1_2" + ext| != |e[1]|;
    ArchiveStemSettles(e, stem + "_1_2", ext, 3);
  }

  /** ... but with `_2` on disk. */
  lemma DiskThirdCopy(path: string)
    ensures var stem, ext := SplitExt(path).0, SplitExt(path).1;
            DiskUniqueName({path, stem + "_1" + ext}, path) == stem + "_2" + ext
  {
    var stem, ext := SplitExt(path).0, SplitExt(path).1;
    var e := {path, stem + "_1" + ext};
    assert DecimalString(1) == "1" && DecimalString(2) == "2";
    assert Candidate(stem, ext, 1) == stem + "_1" + ext;
    assert Candidate(stem, ext, 2) == stem + "_2" + ext;
    assert Candidate(stem, ext, 2) !in e by {
      assert |Candidate(stem, ext, 2)| != |path|;
      assert Candidate(stem, ext, 2)[|stem| + 1] != (stem + "_1" + ext)[|stem| + 1];
    }
    DiskUniqueNameIsLeastFree(e, path, 2);
  }

  /** So a third `photo.jpg` is `photo_1_2.jpg` in the archive ... */
  lemma ArchiveThirdPhoto()
    ensures ArchiveUniqueName(["photo.jpg", "photo_1.jpg"], "photo.jpg") == "photo_1_2.jpg"
  {
    PhotoSplit();
    ArchiveThirdCopy("photo.jpg");
    assert "photo" + "_1" + ".jpg" == "photo_1.jpg";
    assert "photo" + "_1_2" + ".jpg" == "photo_1_2.jpg";
  }

  /** ... and `photo_2.jpg` on disk. */
  lemma DiskThirdPhoto()
    ensures DiskUniqueName({"photo.jpg", "photo_1.jpg"}, "photo.jpg") == "photo_2.jpg"
  {
    PhotoSplit();
    DiskThirdCopy("photo.jpg");
    assert "photo" + "_1" + ".jpg" == "photo_1.jpg";
    assert "photo" + "_2" + ".jpg" == "photo_2.jpg";
  }
}
