/** The extractors of the image extractor service: the directory listing they
    share with the evaluators service, the best image of each consecutive
    group, the images above a top-percent threshold, and the two file
    operations, saving images under fresh names and marking a processed file
    with a prefix. */
module ImageExtractors {
  import opened Wrappers
  import opened Paths
  import opened Arith
  import opened ArgMax
  import opened Percentiles
  import Extractors

  datatype ImageExtractorError =
    | NotADirectory(directory: string)  // "Invalid directory: <directory>"
    | ImageIndexOutOfRange              // fewer images than scores
    | PercentileFailed(error: PercentileError)

  /** `list_directory_files`: a path that is not a directory raises;
      otherwise the files of the listing whose suffix is one of `extensions`
      and whose name does not start with `prefix`, in listing order, as
      paths inside `directory`. Finding none is not an error. */
  function ListDirectoryFiles(isDir: bool, directory: string, entries: seq<Entry>, extensions: seq<string>, prefix: string)
    : (r: Result<seq<Path>, ImageExtractorError>)
    ensures r.Err? <==> !isDir
    ensures r.Err? ==> r.error == NotADirectory(directory)
    ensures r.Ok? ==> r.value == Extractors.InDirectory(directory, FilterListed(entries, extensions, Some(prefix)))
  {
    if !isDir then Err(NotADirectory(directory))
    else Ok(Extractors.InDirectory(directory, FilterListed(entries, extensions, Some(prefix))))
  }

  /** Exactly the listed files are returned: a path is in the result iff it
      names an entry that is a file, has one of the suffixes and lacks the
      prefix. */
  lemma ListDirectoryFilesExact(directory: string, entries: seq<Entry>, extensions: seq<string>, prefix: string, name: string)
    ensures Path(directory, name) in ListDirectoryFiles(true, directory, entries, extensions, prefix).value <==>
              exists e :: e in entries && e.name == name && e.isFile && Suffix(name) in extensions && !StartsWith(name, prefix)
  {
    var kept := FilterListed(entries, extensions, Some(prefix));
    var r := ListDirectoryFiles(true, directory, entries, extensions, prefix).value;
    if Path(directory, name) in r {
      var i :| 0 <= i < |r| && r[i] == Path(directory, name);
      assert kept[i] in kept;
    }
    if exists e :: e in entries && e.name == name && e.isFile && Suffix(name) in extensions && !StartsWith(name, prefix) {
      var e :| e in entries && e.name == name && e.isFile && Suffix(name) in extensions && !StartsWith(name, prefix);
      assert Listed(e, extensions, Some(prefix));
      var i :| 0 <= i < |kept| && kept[i] == e;
      assert r[i] == Path(directory, name);
    }
  }

  /** Listing order is kept: the listing of two runs of entries is the
      listing of the first followed by that of the second. */
  lemma ListDirectoryFilesOrder(directory: string, a: seq<Entry>, b: seq<Entry>, extensions: seq<string>, prefix: string)
    ensures ListDirectoryFiles(true, directory, a + b, extensions, prefix).value ==
            ListDirectoryFiles(true, directory, a, extensions, prefix).value +
            ListDirectoryFiles(true, directory, b, extensions, prefix).value
  {
    FilterListedAppend(a, b, extensions, Some(prefix));
    var fa, fb := FilterListed(a, extensions, Some(prefix)), FilterListed(b, extensions, Some(prefix));
    assert Extractors.InDirectory(directory, fa + fb) == Extractors.InDirectory(directory, fa) + Extractors.InDirectory(directory, fb);
  }

  /** An empty prefix starts every name, so nothing is listed; and a file
      that got the prefix is not listed again. */
  lemma ListDirectoryFilesPrefix(directory: string, entries: seq<Entry>, extensions: seq<string>, prefix: string, name: string)
    ensures ListDirectoryFiles(true, directory, entries, extensions, "") == Ok([])
    ensures ListDirectoryFiles(true, directory, [Entry(prefix + name, true)], extensions, prefix) == Ok([])
  {
    Extractors.EmptyPrefixListsNothing(entries, extensions);
    Extractors.PrefixedNotListed(prefix, name, extensions);
  }

  /** `_get_best_images`: `(n + g - 1) // g` groups of `g` scores, the last
      possibly shorter, and the image at the first maximum of each. No score
      gives no group and no image. */
  method GetBestImages<T>(images: seq<T>, scores: seq<real>, g: int) returns (r: Result<seq<T>, ImageExtractorError>)
    requires g >= 1
    ensures |scores| == 0 ==> r == Ok([])
    ensures |scores| >= 1 && Extractors.IndicesBelow(BestIndices(scores, g), |images|) ==>
              r == Ok(Select(images, BestIndices(scores, g)))
    ensures |scores| >= 1 && !Extractors.IndicesBelow(BestIndices(scores, g), |images|) ==> r == Err(ImageIndexOutOfRange)
  {
    var n := |scores|;
    var groups := (n + g - 1) / g;
    if n == 0 {
      assert groups == 0;
      return Ok([]);
    }
    ghost var idx := BestIndices(scores, g);
    assert groups == NumGroups(n, g);
    var best: seq<T> := [];
    var i := 0;
    while i < groups
      invariant 0 <= i <= groups
      invariant Extractors.IndicesBelow(idx[..i], |images|)
      invariant best == Select(images, idx[..i])
    {
      GroupStartInside(n, g, i);
      var start := i * g;
      var end := if start + g < n then start + g else n;
      assert end == GroupEnd(i, g, n);
      var k := start + FirstArgMax(scores[start..end]);
      assert k == idx[i];
      if k >= |images| {
        return Err(ImageIndexOutOfRange);
      }
      assert idx[..i + 1] == idx[..i] + [k];
      SelectAppend(images, idx[..i], k);
      best := best + [images[k]];
      i := i + 1;
    }
    assert idx[..i] == idx;
    return Ok(best);
  }

  /** `_get_top_percent_images`: the images whose score is strictly above
      the `(100 - topPercent)`-th percentile, in input order, paired as `zip`
      pairs them. */
  function GetTopPercentImages<T>(images: seq<T>, scores: seq<real>, topPercent: real): (r: Result<seq<T>, ImageExtractorError>)
    ensures r.Err? <==> |scores| == 0 || topPercent < 0.0 || topPercent > 100.0
    ensures r.Ok? ==> |r.value| <= |images| && |r.value| <= |scores|
    ensures r.Ok? ==> Percentile(scores, 100.0 - topPercent).Ok? && r.value == KeepAbove(images, scores, Percentile(scores, 100.0 - topPercent).value)
  {
    PercentileRange(scores, 100.0 - topPercent);
    match Percentile(scores, 100.0 - topPercent)
    case Err(e) => Err(PercentileFailed(e))
    case Ok(t) => Extractors.KeepAboveBound(images, scores, t); Ok(KeepAbove(images, scores, t))
  }

  /** What is kept: exactly the positions whose score is strictly above the
      threshold, in increasing order. */
  lemma TopPercentKeepsAbove<T>(images: seq<T>, scores: seq<real>, topPercent: real)
    requires |scores| >= 1 && 0.0 <= topPercent <= 100.0
    ensures var t := Percentile(scores, 100.0 - topPercent).value;
            var n := if |images| < |scores| then |images| else |scores|;
            var idx := IndicesAbove(scores[..n], t, 0);
            GetTopPercentImages(images, scores, topPercent) == Ok(Select(images, idx)) &&
            (forall j :: 0 <= j < |idx| ==> idx[j] < n && scores[idx[j]] > t) &&
            (forall i :: 0 <= i < n && scores[i] > t ==> i in idx)
  {
    var t := Percentile(scores, 100.0 - topPercent).value;
    var n := if |images| < |scores| then |images| else |scores|;
    assert forall i :: 0 <= i < n ==> scores[..n][i] == scores[i];
  }

  /** Asking for a larger top percent never keeps fewer images. */
  lemma TopPercentMonotone<T>(images: seq<T>, scores: seq<real>, p: real, q: real)
    requires |scores| >= 1 && 0.0 <= p <= q <= 100.0
    ensures GetTopPercentImages(images, scores, p).Ok? && GetTopPercentImages(images, scores, q).Ok?
    ensures |GetTopPercentImages(images, scores, p).value| <= |GetTopPercentImages(images, scores, q).value|
  {
    PercentileMonotone(scores, 100.0 - q, 100.0 - p);
    var n := if |images| < |scores| then |images| else |scores|;
    AboveAntitone(scores[..n], Percentile(scores, 100.0 - q).value, Percentile(scores, 100.0 - p).value, 0);
  }

  /** A top percent of 0 thresholds at the largest score and keeps nothing. */
  lemma TopZeroKeepsNothing<T>(images: seq<T>, scores: seq<real>)
    requires |scores| >= 1
    ensures GetTopPercentImages(images, scores, 0.0) == Ok([])
  {
    PercentileRange(scores, 100.0);
    var t := Percentile(scores, 100.0).value;
    var n := if |images| < |scores| then |images| else |scores|;
    Extractors.NoneAbove(scores[..n], t, 0);
  }

  /** The name `_save_images` gives the `i`-th image of a call, `uuid(i)`
      being the `i`-th `uuid.uuid4()` drawn. */
  function ImageName(uuid: nat -> string, i: nat): string
  {
    "image_" + uuid(i)
  }

  /** What the image extractor does to the file system. */
  datatype FileEffect<T> =
    | ImageSaved(image: T, directory: string, filename: string)
    | Renamed(from: Path, to: Path)

  /** The saves of `images` into `directory`, in image order. */
  function Saves<T>(images: seq<T>, directory: string, uuid: nat -> string): (r: seq<FileEffect<T>>)
    ensures |r| == |images|
    ensures forall i :: 0 <= i < |images| ==> r[i] == ImageSaved(images[i], directory, ImageName(uuid, i))
  {
    seq(|images|, i requires 0 <= i < |images| => ImageSaved(images[i], directory, ImageName(uuid, i)))
  }

  /** Distinct uuids give distinct file names, so no save overwrites another
      of the same call. */
  lemma SavedNamesDistinct<T>(images: seq<T>, directory: string, uuid: nat -> string, i: nat, j: nat)
    requires i < j < |images| && uuid(i) != uuid(j)
    ensures Saves(images, directory, uuid)[i].filename != Saves(images, directory, uuid)[j].filename
  {
    var a, b := ImageName(uuid, i), ImageName(uuid, j);
    assert a[6..] == uuid(i) && b[6..] == uuid(j);
  }

  /** The file system as the extractor changes it: every save and rename so
      far, in order. */
  class ImageOutputs<T> {
    var effects: seq<FileEffect<T>>

    constructor()
      ensures effects == []
    {
      effects := [];
    }

    /** `_save_images`: one save per image into the output directory, each
        under `image_` and a fresh uuid. */
    method SaveImages(images: seq<T>, outputDirectory: string, uuid: nat -> string)
      modifies this
      ensures effects == old(effects) + Saves(images, outputDirectory, uuid)
    {
      var i := 0;
      while i < |images|
        invariant 0 <= i <= |images|
        invariant effects == old(effects) + Saves(images[..i], outputDirectory, uuid)
      {
        assert Saves(images[..i + 1], outputDirectory, uuid) ==
               Saves(images[..i], outputDirectory, uuid) + [ImageSaved(images[i], outputDirectory, ImageName(uuid, i))];
        effects := effects + [ImageSaved(images[i], outputDirectory, ImageName(uuid, i))];
        i := i + 1;
      }
      assert images[..i] == images;
    }

    /** `_add_prefix`: rename `parent/name` to `parent/(prefix + name)` and
        return the new path. */
    method AddPrefix(prefix: string, inputPath: Path) returns (newPath: Path)
      modifies this
      ensures newPath == Extractors.PrefixedPath(prefix, inputPath)
      ensures effects == old(effects) + [Renamed(inputPath, newPath)]
    {
      newPath := Path(inputPath.parent, prefix + inputPath.name);
      effects := effects + [Renamed(inputPath, newPath)];
    }
  }
}
