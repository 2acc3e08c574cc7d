/** The file-type selector and the extension tuples that decide which files
    are eligible for transfer (src/file_options.py), with the matching idiom
    `name.lower().endswith(extensions)` of worker.py. */
module FileOptions {
  import opened Paths
  import opened Results

  /** The `FileType` enum. */
  datatype FileType = Images | Videos | ImagesVideos {
    /** The member's value. */
    function Value(): string {
      match this
      case Images => "Images"
      case Videos => "Videos"
      case ImagesVideos => "Images + Videos"
    }
  }

  /** `FileType(value)`: the member with that value; Python raises
      `ValueError` for any other string, modelled as `None`. */
  function FromValue(value: string): (r: Option<FileType>)
    ensures r.Some? ==> r.value.Value() == value
  {
    if value == "Images" then Some(Images)
    else if value == "Videos" then Some(Videos)
    else if value == "Images + Videos" then Some(ImagesVideos)
    else None
  }

  /** Every member is found again from its value, so the values are pairwise
      distinct. */
  lemma ValueRoundTrip(t: FileType)
    ensures FromValue(t.Value()) == Some(t)
  {
    assert "Videos" != "Images" by { assert "Videos"[0] != "Images"[0]; }
    assert "Images + Videos" != "Images" by { assert |"Images + Videos"| != |"Images"|; }
    assert "Images + Videos" != "Videos" by { assert |"Images + Videos"| != |"Videos"|; }
  }

  const VideoExtensions: seq<string> :=
    [".mp4", ".avi", ".mov", ".wmv", ".mkv", ".flv", ".webm", ".mpeg", ".mpg", ".3gp", ".3g2", ".ogg"]

  const ImageExtensions: seq<string> := [".png", ".jpg", ".jpeg", ".gif", ".bmp"]

  /** Extensions are lower-case, start with a dot and hold no other dot. */
  predicate WellFormedExtension(e: string) {
    && |e| >= 2 && e[0] == '.' && Lower(e) == e
    && forall k :: 1 <= k < |e| ==> e[k] != '.'
  }

  lemma ExtensionTables()
    ensures |ImageExtensions| == 5 && |VideoExtensions| == 12
    ensures forall e :: e in ImageExtensions ==> WellFormedExtension(e)
    ensures forall e :: e in VideoExtensions ==> WellFormedExtension(e)
  {
  }

  /** `s.endswith(extensions)` with a tuple of suffixes. */
  function EndsWithAny(s: string, extensions: seq<string>): (r: bool)
    ensures r <==> exists i :: 0 <= i < |extensions| && EndsWith(s, extensions[i])
  {
    if extensions == [] then false
    else EndsWith(s, extensions[0]) || EndsWithAny(s, extensions[1..])
  }

  /** The extensions a selector accepts. */
  function Extensions(t: FileType): seq<string> {
    match t
    case Images => ImageExtensions
    case Videos => VideoExtensions
    case ImagesVideos => ImageExtensions + VideoExtensions
  }

  /** Whether a file name is transferred under selector `t`. */
  function Eligible(name: string, t: FileType): bool {
    EndsWithAny(Lower(name), Extensions(t))
  }

  /** A name is selected iff its lower-cased form ends with one of the
      selector's extensions. */
  lemma EligibleMeans(name: string, t: FileType)
    ensures Eligible(name, t) <==>
              exists i :: 0 <= i < |Extensions(t)| && EndsWith(Lower(name), Extensions(t)[i])
  {
  }

  /** The combined selector accepts exactly what either single one accepts. */
  lemma EligibleUnion(name: string)
    ensures Eligible(name, ImagesVideos) <==> Eligible(name, Images) || Eligible(name, Videos)
  {
    EndsWithAnyConcat(Lower(name), ImageExtensions, VideoExtensions);
  }

  /** A name ends with one of two concatenated tuples' entries iff it ends
      with one of either's. */
  lemma EndsWithAnyConcat(s: string, a: seq<string>, b: seq<string>)
    ensures EndsWithAny(s, a + b) <==> EndsWithAny(s, a) || EndsWithAny(s, b)
  {
    var both := a + b;
    if EndsWithAny(s, both) {
      var i :| 0 <= i < |both| && EndsWith(s, both[i]);
      if i >= |a| {
        assert both[i] == b[i - |a|];
      }
    }
    if EndsWithAny(s, a) {
      var i :| 0 <= i < |a| && EndsWith(s, a[i]);
      assert both[i] == a[i];
    }
    if EndsWithAny(s, b) {
      var j :| 0 <= j < |b| && EndsWith(s, b[j]);
      assert both[j + |a|] == b[j];
    }
  }

  /** Eligibility ignores ASCII letter case. */
  lemma EligibleIgnoresCase(name: string, t: FileType)
    ensures Eligible(Upper(name), t) == Eligible(name, t)
  {
    LowerUpper(name);
  }

  /** Two well-formed extensions with different letters after the dot are
      not suffixes of each other: a shorter one would have to start with the
      longer one's inner dot. */
  lemma UnrelatedExtensions(a: string, b: string)
    requires WellFormedExtension(a) && WellFormedExtension(b) && a[1] != b[1]
    ensures !EndsWith(a, b) && !EndsWith(b, a)
  {
  }

  /** The letters right after the dot: p, j, g, b for images and m, a, w, f,
      3, o for videos. */
  lemma FirstLetters()
    ensures forall i :: 0 <= i < |ImageExtensions| ==> ImageExtensions[i][1] in "pjgb"
    ensures forall j :: 0 <= j < |VideoExtensions| ==> VideoExtensions[j][1] in "mawf3o"
  {
  }

  /** No image extension is a suffix of a video extension or the other way
      round. */
  lemma NoCrossSuffix()
    ensures forall i, j :: 0 <= i < |ImageExtensions| && 0 <= j < |VideoExtensions| ==>
      !EndsWith(VideoExtensions[j], ImageExtensions[i]) && !EndsWith(ImageExtensions[i], VideoExtensions[j])
  {
    ExtensionTables();
    FirstLetters();
    forall i, j | 0 <= i < |ImageExtensions| && 0 <= j < |VideoExtensions|
      ensures !EndsWith(VideoExtensions[j], ImageExtensions[i]) && !EndsWith(ImageExtensions[i], VideoExtensions[j])
    {
      var a, b := ImageExtensions[i], VideoExtensions[j];
      assert a in ImageExtensions && b in VideoExtensions;
      assert a[1] in "pjgb" && b[1] in "mawf3o";
      UnrelatedExtensions(a, b);
    }
  }

  /** Two suffixes of one string: the shorter is a suffix of the longer. */
  lemma SuffixOfSuffix(s: string, a: string, b: string)
    requires EndsWith(s, a) && EndsWith(s, b) && |a| <= |b|
    ensures EndsWith(b, a)
  {
    assert b[|b| - |a|..] == s[|s| - |a|..];
  }

  /** So no file name is both an image and a video. */
  lemma ImagesAndVideosDisjoint(name: string)
    ensures !(Eligible(name, Images) && Eligible(name, Videos))
  {
    var l := Lower(name);
    if Eligible(name, Images) && Eligible(name, Videos) {
      var i :| 0 <= i < |ImageExtensions| && EndsWith(l, ImageExtensions[i]);
      var j :| 0 <= j < |VideoExtensions| && EndsWith(l, VideoExtensions[j]);
      NoCrossSuffix();
      if |ImageExtensions[i]| <= |VideoExtensions[j]| {
        SuffixOfSuffix(l, ImageExtensions[i], VideoExtensions[j]);
      } else {
        SuffixOfSuffix(l, VideoExtensions[j], ImageExtensions[i]);
      }
    }
  }

  /** A name without upper-case letters ... */
  predicate LowerCase(s: string) {
    forall i :: 0 <= i < |s| ==> !('A' <= s[i] <= 'Z')
  }

  lemma LowerOfLowerCase(s: string)
    requires LowerCase(s)
    ensures Lower(s) == s
  {
  }

  /** ... is accepted when it ends with one of the selector's extensions ... */
  lemma Accepted(name: string, t: FileType, k: nat)
    requires LowerCase(name)
    requires k < |Extensions(t)| && EndsWith(name, Extensions(t)[k])
    ensures Eligible(name, t)
  {
    LowerOfLowerCase(name);
  }

  /** ... and rejected when its third character from the end differs from
      that of every extension of the selector. */
  lemma Rejected(name: string, t: FileType)
    requires LowerCase(name) && |name| >= 3
    requires forall k :: 0 <= k < |Extensions(t)| ==>
               |Extensions(t)[k]| >= 3 && Extensions(t)[k][|Extensions(t)[k]| - 3] != name[|name| - 3]
    ensures !Eligible(name, t)
  {
    LowerOfLowerCase(name);
  }

  lemma JpgImage() ensures Eligible("test.jpg", Images) { Accepted("test.jpg", Images, 1); }
  lemma PngImage() ensures Eligible("test.png", Images) { Accepted("test.png", Images, 0); }
  lemma JpegImage() ensures Eligible("test.jpeg", Images) { Accepted("test.jpeg", Images, 2); }
  lemma Mp4NotImage() ensures !Eligible("test.mp4", Images) { Rejected("test.mp4", Images); }
  lemma TxtNotImage() ensures !Eligible("test.txt", Images) { Rejected("test.txt", Images); }
  lemma Mp4Video() ensures Eligible("test.mp4", Videos) { Accepted("test.mp4", Videos, 0); }
  lemma AviVideo() ensures Eligible("test.avi", Videos) { Accepted("test.avi", Videos, 1); }
  lemma MovVideo() ensures Eligible("test.mov", Videos) { Accepted("test.mov", Videos, 2); }
  lemma JpgNotVideo() ensures !Eligible("test.jpg", Videos) { Rejected("test.jpg", Videos); }
  lemma TxtNotVideo() ensures !Eligible("test.txt", Videos) { Rejected("test.txt", Videos); }

  /** The selector behaviour the test suite expects for images ... */
  lemma ImagesExamples()
    ensures Eligible("test.jpg", Images) && Eligible("test.png", Images) && Eligible("test.jpeg", Images)
    ensures !Eligible("test.mp4", Images) && !Eligible("test.txt", Images)
  {
    JpgImage(); PngImage(); JpegImage(); Mp4NotImage(); TxtNotImage();
  }

  /** ... for videos ... */
  lemma VideosExamples()
    ensures Eligible("test.mp4", Videos) && Eligible("test.avi", Videos) && Eligible("test.mov", Videos)
    ensures !Eligible("test.jpg", Videos) && !Eligible("test.txt", Videos)
  {
    Mp4Video(); AviVideo(); MovVideo(); JpgNotVideo(); TxtNotVideo();
  }

  /** ... and for both. */
  lemma CombinedExamples()
    ensures Eligible("test.jpg", ImagesVideos) && Eligible("test.mp4", ImagesVideos)
    ensures Eligible("test.png", ImagesVideos) && Eligible("test.avi", ImagesVideos)
    ensures !Eligible("test.txt", ImagesVideos)
  {
    ImagesExamples();
    VideosExamples();
    EligibleUnion("test.jpg");
    EligibleUnion("test.mp4");
    EligibleUnion("test.png");
    EligibleUnion("test.avi");
    EligibleUnion("test.txt");
  }

  /** An upper-case extension is accepted because of the lower-casing. */
  lemma UpperCaseExtension()
    ensures Eligible("c.PNG", Images)
  {
    assert Lower("c.PNG") == "c.png";
    Accepted("c.png", Images, 0);
  }
}
