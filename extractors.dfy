/** The extractor service's extractors: listing the input directory, choosing
    the best frame of every group of a video batch, keeping the top-percent
    images of an image batch, and the two `process` runs that tie these to the
    sampler, the quality scorer and the file system.

    The scorer is a function from an image to its score; the file system is
    the record of effects the run leaves behind (an image saved to the output
    directory, a video renamed, the evaluator built). */
module Extractors {
  import opened Wrappers
  import opened Paths
  import opened Batching
  import opened ArgMax
  import opened Percentiles
  import opened Video
  import opened Arith
  import VideoProcessors

  /** The settings an extractor runs with; `DefaultConfig` holds the service's defaults. */
  datatype Config = Config(
    inputDirectory: string,
    outputDirectory: string,
    videoExtensions: seq<string>,
    imagesExtensions: seq<string>,
    processedVideoPrefix: string,
    batchSize: int,
    comperingGroupSize: int,
    topImagesPercent: real,
    imagesOutputFormat: string)

  const DefaultConfig := Config("/app/input_directory", "/app/output_directory", [".mp4"], [".jpg"],
                                "frames_extracted_", 100, 5, 90.0, ".jpg")

  datatype ExtractorError =
    | EmptyInputDirectoryError(shownPrefix: string)  // the prefix as the message shows it
    | UnknownExtractorName(name: string)
    | NoScoresToCompare                              // argmax of an empty group
    | ImageIndexOutOfRange                           // fewer images than scores
    | TopPercentFailed(percentileError: PercentileError)
    | VideoFailed(videoError: VideoError)
    | ZeroBatchStep                                  // `range` with step 0

  datatype ExtractorKind = BestFramesExtractor | TopImagesExtractor

  /** What a run leaves behind, in order. */
  datatype Effect =
    | EvaluatorBuilt
    | ImageSaved(image: Frame)
    | Renamed(from: Path, to: Path)

  /** `ExtractorFactory.get_extractor`: the two known names and nothing else. */
  function GetExtractor(name: string): (r: Result<ExtractorKind, ExtractorError>)
    ensures r == Ok(BestFramesExtractor) <==> name == "best_frames_extractor"
    ensures r == Ok(TopImagesExtractor) <==> name == "top_images_extractor"
    ensures r.Err? ==> r.error == UnknownExtractorName(name)
  {
    match name
    case "best_frames_extractor" => Ok(BestFramesExtractor)
    case "top_images_extractor" => Ok(TopImagesExtractor)
    case _ => Err(UnknownExtractorName(name))
  }

  /** `_list_input_directory_files` over the listing of the input directory. */
  function ListInputDirectoryFiles(entries: seq<Entry>, extensions: seq<string>, prefix: Option<string>): (r: Result<seq<Entry>, ExtractorError>)
    ensures r.Ok? <==> exists e :: e in entries && Listed(e, extensions, prefix)
    ensures r.Ok? ==> r.value == FilterListed(entries, extensions, prefix)
    ensures r.Err? ==> r.error == EmptyInputDirectoryError(if prefix.None? || prefix.value == "" then "Prefix not provided" else prefix.value)
  {
    var files := FilterListed(entries, extensions, prefix);
    if files == [] then
      Err(EmptyInputDirectoryError(if prefix.Some? && prefix.value != "" then prefix.value else "Prefix not provided"))
    else
      assert files[0] in files;
      Ok(files)
  }

  /** An empty prefix excludes every name, so the listing always fails. */
  lemma EmptyPrefixListsNothing(entries: seq<Entry>, extensions: seq<string>)
    ensures ListInputDirectoryFiles(entries, extensions, Some("")) == Err(EmptyInputDirectoryError("Prefix not provided"))
  {
    forall e | e in entries
      ensures !Listed(e, extensions, Some(""))
    {
      assert e.name[..0] == "";
    }
  }

  /** A file renamed with the prefix is never listed again under that prefix. */
  lemma PrefixedNotListed(prefix: string, name: string, extensions: seq<string>)
    ensures !Listed(Entry(prefix + name, true), extensions, Some(prefix))
  {
    assert (prefix + name)[..|prefix|] == prefix;
  }

  /** The paths of the listed entries inside `directory`. */
  function InDirectory(directory: string, entries: seq<Entry>): (r: seq<Path>)
    ensures |r| == |entries|
    ensures forall i :: 0 <= i < |r| ==> r[i] == Path(directory, entries[i].name)
  {
    seq(|entries|, i requires 0 <= i < |entries| => Path(directory, entries[i].name))
  }

  /** The path a file gets when `prefix` is put before its name. */
  function PrefixedPath(prefix: string, path: Path): Path
  {
    Path(path.parent, prefix + path.name)
  }

  lemma AddPrefixExample()
    ensures PrefixedPath("prefix_", Path("test_path", "file.mp4")) == Path("test_path", "prefix_file.mp4")
  {
  }

  predicate IndicesBelow(idx: seq<nat>, n: nat)
  {
    forall j :: 0 <= j < |idx| ==> idx[j] < n
  }

  /** `_get_best_images`: cut the scores into consecutive groups of `g`, take
      the first maximum of each group and return the image at that position.
      An empty score list leaves one empty group, whose argmax fails. */
  method GetBestImages<T>(images: seq<T>, scores: seq<real>, g: int) returns (r: Result<seq<T>, ExtractorError>)
    requires g >= 1
    ensures |scores| == 0 ==> r == Err(NoScoresToCompare)
    ensures |scores| >= 1 && IndicesBelow(BestIndices(scores, g), |images|) ==>
              r == Ok(Select(images, BestIndices(scores, g)))
    ensures |scores| >= 1 && !IndicesBelow(BestIndices(scores, g), |images|) ==> r == Err(ImageIndexOutOfRange)
  {
    var n := |scores|;
    if n == 0 {
      return Err(NoScoresToCompare);
    }
    ghost var idx := BestIndices(scores, g);
    var groups := CeilDiv(n, g);
    var best: seq<T> := [];
    var i := 0;
    while i < groups
      invariant 0 <= i <= groups
      invariant IndicesBelow(idx[..i], |images|)
      invariant best == Select(images, idx[..i])
    {
      GroupStartInside(n, g, i);
      var lo := i * g;
      var k := lo + FirstArgMax(scores[lo..GroupEnd(i, g, n)]);
      assert k == idx[i];
      if k >= |images| {
        return Err(ImageIndexOutOfRange);
      }
      assert idx[..i + 1] == idx[..i] + [k];
      SelectAppend(images, idx[..i], k);
      best := best + [images[k]];
      i := i + 1;
    }
    assert idx[..i] == idx;
    return Ok(best);
  }

  /** Every group of a non-empty batch has its best image; the picks are one
      per group, in group order, so never more than the batch. */
  lemma BestImagesCount(scores: seq<real>, g: nat)
    requires g >= 1 && |scores| >= 1
    ensures IndicesBelow(BestIndices(scores, g), |scores|)
    ensures 1 <= |BestIndices(scores, g)| <= |scores|
    ensures |scores| <= g ==> |BestIndices(scores, g)| == 1
  {
    BestIndicesOrdered(scores, g);
    var r := BestIndices(scores, g);
    CeilDivBounds(|scores|, g);
    StrictlyIncreasingBound(r, |r| - 1);
    if |scores| <= g {
      CeilDivOne(|scores|, g);
    }
  }

  /** A strictly increasing sequence of naturals holds a value of at least `k`
      at position `k`. */
  lemma {:induction false} StrictlyIncreasingBound(r: seq<nat>, k: nat)
    requires k < |r|
    requires forall i, j :: 0 <= i < j < |r| ==> r[i] < r[j]
    ensures r[k] >= k
  {
    if k > 0 {
      StrictlyIncreasingBound(r, k - 1);
    }
  }

  /** `_get_top_percent_images`: the images whose score is strictly above the
      `topPercent`-th percentile of the scores, in input order. */
  function GetTopPercentImages<T>(images: seq<T>, scores: seq<real>, topPercent: real): (r: Result<seq<T>, ExtractorError>)
    ensures r.Err? <==> |scores| == 0 || topPercent < 0.0 || topPercent > 100.0
    ensures r.Ok? ==> |r.value| <= |images| && |r.value| <= |scores|
    ensures r.Ok? ==> Percentile(scores, topPercent).Ok? && r.value == KeepAbove(images, scores, Percentile(scores, topPercent).value)
  {
    PercentileRange(scores, topPercent);
    match Percentile(scores, topPercent)
    case Err(e) => Err(TopPercentFailed(e))
    case Ok(t) => KeepAboveBound(images, scores, t); Ok(KeepAbove(images, scores, t))
  }

  lemma KeepAboveBound<T>(images: seq<T>, scores: seq<real>, t: real)
    ensures |KeepAbove(images, scores, t)| <= |images| && |KeepAbove(images, scores, t)| <= |scores|
  {
    var n := if |images| < |scores| then |images| else |scores|;
    var idx := IndicesAbove(scores[..n], t, 0);
    if |idx| > n {
      StrictlyIncreasingBound(idx, n);
    }
  }

  /** What is kept: exactly the positions with a score strictly above the
      threshold, in increasing order, paired as `zip` pairs. */
  lemma TopPercentKeepsAbove<T>(images: seq<T>, scores: seq<real>, topPercent: real)
    requires |scores| >= 1 && 0.0 <= topPercent <= 100.0
    ensures var t := Percentile(scores, topPercent).value;
            var n := if |images| < |scores| then |images| else |scores|;
            var idx := IndicesAbove(scores[..n], t, 0);
            GetTopPercentImages(images, scores, topPercent) == Ok(Select(images, idx)) &&
            (forall j :: 0 <= j < |idx| ==> idx[j] < n && scores[idx[j]] > t) &&
            (forall i :: 0 <= i < n && scores[i] > t ==> i in idx)
  {
    var t := Percentile(scores, topPercent).value;
    var n := if |images| < |scores| then |images| else |scores|;
    var idx := IndicesAbove(scores[..n], t, 0);
    assert forall i :: 0 <= i < n ==> scores[..n][i] == scores[i];
  }

  /** At 100 the threshold is the largest score, so no image is kept. */
  lemma TopHundredKeepsNothing<T>(images: seq<T>, scores: seq<real>)
    requires |scores| >= 1
    ensures GetTopPercentImages(images, scores, 100.0) == Ok([])
  {
    PercentileRange(scores, 100.0);
    var t := Percentile(scores, 100.0).value;
    var n := if |images| < |scores| then |images| else |scores|;
    NoneAbove(scores[..n], t, 0);
  }

  lemma {:induction false} NoneAbove(scores: seq<real>, t: real, from: nat)
    requires from <= |scores|
    requires forall i :: 0 <= i < |scores| ==> scores[i] <= t
    ensures IndicesAbove(scores, t, from) == []
    decreases |scores| - from
  {
    if from < |scores| {
      NoneAbove(scores, t, from + 1);
    }
  }

  /** Raising the percent never keeps more images. */
  lemma TopPercentMonotone<T>(images: seq<T>, scores: seq<real>, p: real, q: real)
    requires |scores| >= 1 && 0.0 <= p <= q <= 100.0
    ensures GetTopPercentImages(images, scores, p).Ok? && GetTopPercentImages(images, scores, q).Ok?
    ensures |GetTopPercentImages(images, scores, q).value| <= |GetTopPercentImages(images, scores, p).value|
  {
    PercentileMonotone(scores, p, q);
    var n := if |images| < |scores| then |images| else |scores|;
    AboveAntitone(scores[..n], Percentile(scores, p).value, Percentile(scores, q).value, 0);
  }

  /** Sorting an already ascending sample changes nothing. */
  lemma {:induction false} SortAscOfSorted(s: seq<real>)
    requires Sorted(s)
    ensures SortAsc(s) == s
  {
    if s != [] {
      SortAscOfSorted(s[1..]);
      assert SortAsc(s[1..]) == s[1..];
      if |s| > 1 {
        assert s[0] <= s[1..][0];
      }
      assert Insert(s[0], s[1..]) == [s[0]] + s[1..];
    }
  }

  /** Scores 10, 20, 30, 40, 90 at 80 percent: the fractional rank is 3.2,
      so the threshold is 40 + 0.2 * (90 - 40) = 50. */
  lemma PercentileExample(s: seq<real>)
    requires s == [10.0, 20.0, 30.0, 40.0, 90.0]
    ensures Percentile(s, 80.0) == Ok(50.0)
  {
    ExampleSorted(s);
    ExampleRank();
    ExampleInterp(s);
  }

  lemma ExampleSorted(s: seq<real>)
    requires s == [10.0, 20.0, 30.0, 40.0, 90.0]
    ensures SortAsc(s) == s
  {
    assert Sorted(s);
    SortAscOfSorted(s);
  }

  lemma ExampleRank()
    ensures Rank(5, 80.0) == 3.2
  {
  }

  lemma ExampleInterp(s: seq<real>)
    requires s == [10.0, 20.0, 30.0, 40.0, 90.0]
    ensures Interp(s, 3.2) == 50.0
  {
    assert (3.2).Floor == 3;
  }

  /** ... and at that threshold only the image scored 90 is kept. */
  lemma TopPercentExample(images: seq<int>, s: seq<real>)
    requires images == [0, 1, 2, 3, 4] && s == [10.0, 20.0, 30.0, 40.0, 90.0]
    ensures GetTopPercentImages(images, s, 80.0) == Ok([4])
  {
    PercentileExample(s);
    ExampleKeep(images, s);
  }

  lemma ExampleKeep(images: seq<int>, s: seq<real>)
    requires images == [0, 1, 2, 3, 4] && s == [10.0, 20.0, 30.0, 40.0, 90.0]
    ensures KeepAbove(images, s, 50.0) == [4]
  {
    ExampleAbove(s);
    assert s[..5] == s;
  }

  lemma ExampleAbove(s: seq<real>)
    requires s == [10.0, 20.0, 30.0, 40.0, 90.0]
    ensures IndicesAbove(s, 50.0, 0) == [4]
  {
    assert IndicesAbove(s, 50.0, 5) == [];
    assert IndicesAbove(s, 50.0, 4) == [4];
    assert IndicesAbove(s, 50.0, 3) == [4];
    assert IndicesAbove(s, 50.0, 2) == [4];
    assert IndicesAbove(s, 50.0, 1) == [4];
  }

  /** The images among `paths` that could be read, in path order. */
  function Readable(paths: seq<Path>, read: Path -> Option<Frame>): (r: seq<Frame>)
    ensures |r| <= |paths|
  {
    if paths == [] then []
    else
      var init := Readable(paths[..|paths| - 1], read);
      match read(paths[|paths| - 1])
      case Some(x) => init + [x]
      case None => init
  }

  /** Every image kept was read from one of the paths. */
  lemma {:induction false} ReadableFrom(paths: seq<Path>, read: Path -> Option<Frame>)
    ensures forall x :: x in Readable(paths, read) ==> exists p :: p in paths && read(p) == Some(x)
  {
    if paths != [] {
      var init := paths[..|paths| - 1];
      ReadableFrom(init, read);
      assert forall p :: p in init ==> p in paths;
      assert paths[|paths| - 1] in paths;
    }
  }

  /** When no path can be read the result is empty. */
  lemma {:induction false} ReadableNone(paths: seq<Path>, read: Path -> Option<Frame>)
    requires forall p :: p in paths ==> read(p).None?
    ensures Readable(paths, read) == []
  {
    if paths != [] {
      var init := paths[..|paths| - 1];
      assert forall p :: p in init ==> p in paths;
      ReadableNone(init, read);
      assert paths[|paths| - 1] in paths;
    }
  }

  /** When every path can be read there is one image per path, in path order. */
  lemma {:induction false} ReadableAll(paths: seq<Path>, read: Path -> Option<Frame>)
    requires forall p :: p in paths ==> read(p).Some?
    ensures |Readable(paths, read)| == |paths|
    ensures forall i :: 0 <= i < |paths| ==> Some(Readable(paths, read)[i]) == read(paths[i])
  {
    if paths != [] {
      var init := paths[..|paths| - 1];
      assert forall p :: p in init ==> p in paths;
      ReadableAll(init, read);
      assert paths[|paths| - 1] in paths;
      forall i | 0 <= i < |paths|
        ensures Some(Readable(paths, read)[i]) == read(paths[i])
      {
        if i < |init| {
          assert paths[i] == init[i];
        }
      }
    }
  }

  /** `_read_images`: read every path, keep the images that could be read. */
  method ReadImages(paths: seq<Path>, read: Path -> Option<Frame>) returns (images: seq<Frame>)
    ensures images == Readable(paths, read)
  {
    images := [];
    var i := 0;
    while i < |paths|
      invariant 0 <= i <= |paths|
      invariant images == Readable(paths[..i], read)
    {
      assert paths[..i + 1][..i] == paths[..i];
      var image := read(paths[i]);
      if image.Some? {
        images := images + [image.value];
      }
      i := i + 1;
    }
    assert paths[..i] == paths;
  }

  /** The scores of a batch, one per image, in image order. */
  function Scores(images: seq<Frame>, score: Frame -> real): (r: seq<real>)
    ensures |r| == |images|
    ensures forall i :: 0 <= i < |r| ==> r[i] == score(images[i])
  {
    seq(|images|, i requires 0 <= i < |images| => score(images[i]))
  }

  /** The best image of every group of one non-empty batch. */
  function BestOfBatch(batch: seq<Frame>, g: nat, score: Frame -> real): (r: seq<Frame>)
    requires g >= 1 && batch != []
    ensures 1 <= |r| <= |batch|
  {
    BestImagesCount(Scores(batch, score), g);
    Select(batch, BestIndices(Scores(batch, score), g))
  }

  /** The selections of all batches, in batch order, empty batches skipped. */
  function BestOfBatches(batches: seq<seq<Frame>>, g: nat, score: Frame -> real): (r: seq<Frame>)
    requires g >= 1
  {
    if batches == [] then []
    else
      var last := batches[|batches| - 1];
      BestOfBatches(batches[..|batches| - 1], g, score) + (if last == [] then [] else BestOfBatch(last, g, score))
  }

  /** What `_extract_best_frames` returns for a video: the sampler's error, or
      the best frames of its batches. */
  function BestOfVideo(src: Source, batchSize: int, g: nat, score: Frame -> real): Result<seq<Frame>, ExtractorError>
    requires g >= 1
  {
    if !OpenAfter(src, 0) then Err(VideoFailed(CantOpenVideoCapture))
    else if src.fps <= 0.0 then Err(VideoFailed(InvalidFrameRate))
    else if RoundHalfEven(src.fps) == 0 then Err(VideoFailed(ZeroRangeStep))
    else Ok(BestOfBatches(Batches(VideoProcessors.SampledFrames(src, RoundHalfEven(src.fps)), batchSize), g, score))
  }

  /** One save per image, in order. */
  function Saves(images: seq<Frame>): (r: seq<Effect>)
    ensures |r| == |images|
    ensures forall i :: 0 <= i < |r| ==> r[i] == ImageSaved(images[i])
  {
    seq(|images|, i requires 0 <= i < |images| => ImageSaved(images[i]))
  }

  /** The outcome of `_extract_best_frames` for each video path. */
  function VideoOutcome(source: Path -> Source, cfg: Config, score: Frame -> real): Path -> Result<seq<Frame>, ExtractorError>
    requires cfg.comperingGroupSize >= 1
  {
    v => BestOfVideo(source(v), cfg.batchSize, cfg.comperingGroupSize, score)
  }

  /** `outcome` gives, for every video, what `_extract_best_frames` returns on it. */
  ghost predicate IsVideoOutcome(outcome: Path -> Result<seq<Frame>, ExtractorError>, source: Path -> Source, cfg: Config, score: Frame -> real)
    requires cfg.comperingGroupSize >= 1
  {
    forall v {:trigger BestOfVideo(source(v), cfg.batchSize, cfg.comperingGroupSize, score)} ::
      outcome(v) == BestOfVideo(source(v), cfg.batchSize, cfg.comperingGroupSize, score)
  }

  /** The effects of the best-frames run over `videos` once the evaluator is
      built, given each video's outcome: each video's frames are saved, then
      the video is renamed with `prefix`; the first failing video ends the run. */
  function BestFramesTrace(videos: seq<Path>, outcome: Path -> Result<seq<Frame>, ExtractorError>, prefix: string): (seq<Effect>, Option<ExtractorError>)
  {
    if videos == [] then ([], None)
    else
      match outcome(videos[0])
      case Err(e) => ([], Some(e))
      case Ok(frames) =>
        var rest := BestFramesTrace(videos[1..], outcome, prefix);
        (Saves(frames) + [Renamed(videos[0], PrefixedPath(prefix, videos[0]))] + rest.0, rest.1)
  }

  /** The renames among some effects, in order. */
  function RenamesIn(effects: seq<Effect>): seq<Effect>
  {
    if effects == [] then []
    else (if effects[0].Renamed? then [effects[0]] else []) + RenamesIn(effects[1..])
  }

  lemma {:induction false} RenamesInAppend(a: seq<Effect>, b: seq<Effect>)
    ensures RenamesIn(a + b) == RenamesIn(a) + RenamesIn(b)
  {
    if a == [] {
      assert a + b == b;
    } else {
      assert (a + b)[1..] == a[1..] + b;
      RenamesInAppend(a[1..], b);
    }
  }

  lemma {:induction false} NoRenamesInSaves(images: seq<Frame>)
    ensures RenamesIn(Saves(images)) == []
  {
    if images != [] {
      assert Saves(images)[1..] == Saves(images[1..]);
      NoRenamesInSaves(images[1..]);
    }
  }

  /** Saving a video's frames renames nothing; the rename after them is the
      next rename of the run. */
  lemma RenamesInStep(frames: seq<Frame>, r: Effect, rest: seq<Effect>)
    requires r.Renamed?
    ensures RenamesIn(Saves(frames) + [r] + rest) == [r] + RenamesIn(rest)
  {
    RenamesInAppend(Saves(frames), [r]);
    RenamesInAppend(Saves(frames) + [r], rest);
    NoRenamesInSaves(frames);
    assert RenamesIn([r]) == [r] + RenamesIn([]);
  }

  /** The best-frames run renames the videos it finished, in listing order,
      each to its prefixed name, and only those: all of them when no video
      fails. It never builds the evaluator again. */
  lemma {:induction false} BestFramesRenames(videos: seq<Path>, outcome: Path -> Result<seq<Frame>, ExtractorError>, prefix: string)
    ensures var run := BestFramesTrace(videos, outcome, prefix);
            |RenamesIn(run.0)| <= |videos| &&
            (run.1.None? ==> |RenamesIn(run.0)| == |videos|) &&
            (forall i :: 0 <= i < |RenamesIn(run.0)| ==>
               RenamesIn(run.0)[i] == Renamed(videos[i], PrefixedPath(prefix, videos[i])))
    ensures EvaluatorBuilt !in BestFramesTrace(videos, outcome, prefix).0
  {
    if videos != [] {
      var best := outcome(videos[0]);
      var run := BestFramesTrace(videos, outcome, prefix);
      if best.Ok? {
        var rest := BestFramesTrace(videos[1..], outcome, prefix);
        var r := Renamed(videos[0], PrefixedPath(prefix, videos[0]));
        assert run == (Saves(best.value) + [r] + rest.0, rest.1);
        BestFramesRenames(videos[1..], outcome, prefix);
        RenamesInStep(best.value, r, rest.0);
        var rs := RenamesIn(run.0);
        forall i | 0 <= i < |rs|
          ensures rs[i] == Renamed(videos[i], PrefixedPath(prefix, videos[i]))
        {
          if i > 0 {
            assert rs[i] == RenamesIn(rest.0)[i - 1];
            assert videos[1..][i - 1] == videos[i];
          }
        }
      } else {
        assert run == ([], Some(best.error));
      }
    }
  }

  /** What one slice of the top-images run keeps: its readable images are
      scored and those above the threshold kept. */
  function SliceTop(slice: seq<Path>, read: Path -> Option<Frame>, score: Frame -> real, topPercent: real): Result<seq<Frame>, ExtractorError>
  {
    var images := Readable(slice, read);
    GetTopPercentImages(images, Scores(images, score), topPercent)
  }

  /** `outcome` gives, for every slice, what the top-images run keeps of it. */
  ghost predicate IsSliceOutcome(outcome: seq<Path> -> Result<seq<Frame>, ExtractorError>, read: Path -> Option<Frame>, score: Frame -> real, topPercent: real)
  {
    forall s {:trigger SliceTop(s, read, score, topPercent)} :: outcome(s) == SliceTop(s, read, score, topPercent)
  }

  /** The effects of the top-images run over its slices once the evaluator is
      built, given what each slice keeps: the kept images are saved; the first
      slice whose threshold cannot be computed ends the run. */
  function TopImagesTrace(slices: seq<seq<Path>>, outcome: seq<Path> -> Result<seq<Frame>, ExtractorError>): (seq<Effect>, Option<ExtractorError>)
  {
    if slices == [] then ([], None)
    else
      match outcome(slices[0])
      case Err(e) => ([], Some(e))
      case Ok(top) =>
        var rest := TopImagesTrace(slices[1..], outcome);
        (Saves(top) + rest.0, rest.1)
  }

  /** A slice of a batch loop over `range(0, n, k)`: the first `k` items (or
      all, when fewer are left), followed by the slices of the rest. */
  lemma BatchesCons<T>(s: seq<T>, k: nat)
    requires k >= 1 && s != []
    ensures var m := if k < |s| then k else |s|;
            Batches(s, k) == [s[..m]] + Batches(s[m..], k)
  {
    if |s| < k {
      assert s[|s|..] == [];
      assert s[..|s|] == s;
    } else {
      assert FullChunks(s, k) == [s[..k]] + FullChunks(s[k..], k);
    }
  }

  /** The best-frames run as its loop performs it: `acc` holds the effects so
      far, and each video appends its saves and its rename. */
  function BestFramesAcc(acc: seq<Effect>, videos: seq<Path>, outcome: Path -> Result<seq<Frame>, ExtractorError>, prefix: string): (seq<Effect>, Option<ExtractorError>)
    decreases |videos|
  {
    if videos == [] then (acc, None)
    else
      match outcome(videos[0])
      case Err(e) => (acc, Some(e))
      case Ok(frames) =>
        BestFramesAcc(acc + Saves(frames) + [Renamed(videos[0], PrefixedPath(prefix, videos[0]))], videos[1..], outcome, prefix)
  }

  /** Performing the run after `acc` appends the run's effects to `acc`. */
  lemma {:induction false} BestFramesAccTrace(acc: seq<Effect>, videos: seq<Path>, outcome: Path -> Result<seq<Frame>, ExtractorError>, prefix: string)
    ensures BestFramesAcc(acc, videos, outcome, prefix).0 == acc + BestFramesTrace(videos, outcome, prefix).0
    ensures BestFramesAcc(acc, videos, outcome, prefix).1 == BestFramesTrace(videos, outcome, prefix).1
    decreases |videos|
  {
    if videos != [] && outcome(videos[0]).Ok? {
      var step := Saves(outcome(videos[0]).value) + [Renamed(videos[0], PrefixedPath(prefix, videos[0]))];
      BestFramesAccTrace(acc + step, videos[1..], outcome, prefix);
      assert acc + Saves(outcome(videos[0]).value) + [Renamed(videos[0], PrefixedPath(prefix, videos[0]))] == acc + step;
      AppendAssoc(acc, step, BestFramesTrace(videos[1..], outcome, prefix).0);
    }
  }

  /** One step of the best-frames run, from the `i`-th video on. */
  lemma BestFramesAccAt(acc: seq<Effect>, videos: seq<Path>, i: nat, outcome: Path -> Result<seq<Frame>, ExtractorError>, prefix: string)
    requires i < |videos|
    ensures var best := outcome(videos[i]);
            (best.Err? ==> BestFramesAcc(acc, videos[i..], outcome, prefix) == (acc, Some(best.error))) &&
            (best.Ok? ==>
               BestFramesAcc(acc, videos[i..], outcome, prefix) ==
               BestFramesAcc(acc + Saves(best.value) + [Renamed(videos[i], PrefixedPath(prefix, videos[i]))], videos[i + 1..], outcome, prefix))
  {
    assert videos[i..][0] == videos[i];
    assert videos[i..][1..] == videos[i + 1..];
  }

  /** The top-images run as its loop performs it, walking the paths `k` at a
      time (or all, when fewer are left) as the loop over
      `range(0, len(paths), k)` does: `acc` holds the effects so far, and
      each slice appends the saves of the images it keeps. */
  function TopImagesRun(acc: seq<Effect>, paths: seq<Path>, k: nat, outcome: seq<Path> -> Result<seq<Frame>, ExtractorError>): (seq<Effect>, Option<ExtractorError>)
    requires k >= 1
    decreases |paths|
  {
    if paths == [] then (acc, None)
    else
      var m := if k < |paths| then k else |paths|;
      match outcome(paths[..m])
      case Err(e) => (acc, Some(e))
      case Ok(top) => TopImagesRun(acc + Saves(top), paths[m..], k, outcome)
  }

  /** Walking the paths `k` at a time after `acc` appends to `acc` the effects
      of the run over their batches of `k`. */
  lemma {:induction false} TopImagesRunSlices(acc: seq<Effect>, paths: seq<Path>, k: nat, outcome: seq<Path> -> Result<seq<Frame>, ExtractorError>)
    requires k >= 1
    ensures TopImagesRun(acc, paths, k, outcome).0 == acc + TopImagesTrace(Batches(paths, k), outcome).0
    ensures TopImagesRun(acc, paths, k, outcome).1 == TopImagesTrace(Batches(paths, k), outcome).1
    decreases |paths|
  {
    if paths != [] {
      var m := if k < |paths| then k else |paths|;
      BatchesCons(paths, k);
      assert Batches(paths, k)[0] == paths[..m];
      assert Batches(paths, k)[1..] == Batches(paths[m..], k);
      if outcome(paths[..m]).Ok? {
        var top := outcome(paths[..m]).value;
        TopImagesRunSlices(acc + Saves(top), paths[m..], k, outcome);
        AppendAssoc(acc, Saves(top), TopImagesTrace(Batches(paths[m..], k), outcome).0);
      }
    } else {
      BatchesProperties(paths, k);
    }
  }

  /** One slice of the top-images run, from the `i`-th path on. */
  lemma TopImagesRunAt(acc: seq<Effect>, paths: seq<Path>, i: nat, k: nat, outcome: seq<Path> -> Result<seq<Frame>, ExtractorError>)
    requires k >= 1 && i < |paths|
    ensures var end := if i + k < |paths| then i + k else |paths|;
            var top := outcome(paths[i..end]);
            (top.Err? ==> TopImagesRun(acc, paths[i..], k, outcome) == (acc, Some(top.error))) &&
            (top.Ok? ==> TopImagesRun(acc, paths[i..], k, outcome) == TopImagesRun(acc + Saves(top.value), paths[end..], k, outcome))
  {
    var end := if i + k < |paths| then i + k else |paths|;
    assert paths[i..][..end - i] == paths[i..end];
    assert paths[i..][end - i..] == paths[end..];
  }

  /** An extractor: its configuration, whether its image evaluator has been
      built, and everything it has done to the file system so far. */
  class Extractor {
    const config: Config
    var evaluatorReady: bool
    var effects: seq<Effect>

    constructor(config: Config)
      ensures this.config == config && !evaluatorReady && effects == []
    {
      this.config := config;
      evaluatorReady := false;
      effects := [];
    }

    /** `_get_image_evaluator`: build the evaluator. */
    method GetImageEvaluator()
      modifies this
      ensures evaluatorReady
      ensures effects == old(effects) + [EvaluatorBuilt]
    {
      evaluatorReady := true;
      effects := effects + [EvaluatorBuilt];
    }

    /** `_save_images`: one save per image, in image order. */
    method SaveImages(images: seq<Frame>)
      modifies this
      ensures evaluatorReady == old(evaluatorReady)
      ensures effects == old(effects) + Saves(images)
    {
      var i := 0;
      while i < |images|
        invariant 0 <= i <= |images|
        invariant evaluatorReady == old(evaluatorReady)
        invariant effects == old(effects) + Saves(images[..i])
      {
        assert Saves(images[..i + 1]) == Saves(images[..i]) + [ImageSaved(images[i])];
        effects := effects + [ImageSaved(images[i])];
        i := i + 1;
      }
      assert images[..i] == images;
    }

    /** `_add_prefix`: rename `parent/name` to `parent/(prefix + name)`. */
    method AddPrefix(prefix: string, path: Path) returns (newPath: Path)
      modifies this
      ensures newPath == Path(path.parent, prefix + path.name)
      ensures evaluatorReady == old(evaluatorReady)
      ensures effects == old(effects) + [Renamed(path, newPath)]
    {
      newPath := Path(path.parent, prefix + path.name);
      effects := effects + [Renamed(path, newPath)];
    }

    /** `BestFramesExtractor._extract_best_frames`: sample the video, skip empty
        batches, pick the best frame of every group of each batch. */
    method ExtractBestFrames(src: Source, score: Frame -> real) returns (r: Result<seq<Frame>, ExtractorError>)
      requires config.comperingGroupSize >= 1
      ensures r == BestOfVideo(src, config.batchSize, config.comperingGroupSize, score)
    {
      var g := config.comperingGroupSize;
      var cap, batches, err := VideoProcessors.GetNextVideoFrames(src, config.batchSize);
      if err.Some? {
        return Err(VideoFailed(err.value));
      }
      assert BestOfVideo(src, config.batchSize, g, score) == Ok(BestOfBatches(batches, g, score));
      var best := BestOfAllBatches(batches, score);
      return Ok(best);
    }

    /** The loop of `_extract_best_frames` over the sampled batches: an empty
        batch is skipped, every other one is scored and its best images kept. */
    method BestOfAllBatches(batches: seq<seq<Frame>>, score: Frame -> real) returns (best: seq<Frame>)
      requires config.comperingGroupSize >= 1
      ensures best == BestOfBatches(batches, config.comperingGroupSize, score)
    {
      var g := config.comperingGroupSize;
      best := [];
      var i := 0;
      while i < |batches|
        invariant 0 <= i <= |batches|
        invariant best == BestOfBatches(batches[..i], g, score)
      {
        assert batches[..i + 1][..i] == batches[..i];
        var frames := batches[i];
        if frames != [] {
          var scores := Scores(frames, score);
          BestImagesCount(scores, g);
          var selected := GetBestImages(frames, scores, g);
          best := best + selected.value;
        }
        i := i + 1;
      }
      assert batches[..i] == batches;
    }

    /** `BestFramesExtractor.process`: list the unprocessed videos, build the
        evaluator once, then for each video save its best frames and only
        then rename it with the processed prefix. */
    method ProcessBestFrames(entries: seq<Entry>, source: Path -> Source, score: Frame -> real) returns (err: Option<ExtractorError>)
      requires config.comperingGroupSize >= 1
      modifies this
      ensures var listed := ListInputDirectoryFiles(entries, config.videoExtensions, Some(config.processedVideoPrefix));
              if listed.Err? then err == Some(listed.error) && effects == old(effects)
              else
                var run := BestFramesTrace(InDirectory(config.inputDirectory, listed.value),
                                           VideoOutcome(source, config, score), config.processedVideoPrefix);
                effects == old(effects) + [EvaluatorBuilt] + run.0 && err == run.1
    {
      var listed := ListInputDirectoryFiles(entries, config.videoExtensions, Some(config.processedVideoPrefix));
      if listed.Err? {
        return Some(listed.error);
      }
      GetImageEvaluator();
      err := ExtractAllVideos(InDirectory(config.inputDirectory, listed.value), source, score, VideoOutcome(source, config, score));
    }

    /** `_extract_best_frames` on one listed video. */
    method ExtractVideo(v: Path, source: Path -> Source, score: Frame -> real, ghost outcome: Path -> Result<seq<Frame>, ExtractorError>)
      returns (r: Result<seq<Frame>, ExtractorError>)
      requires config.comperingGroupSize >= 1 && IsVideoOutcome(outcome, source, config, score)
      ensures r == outcome(v)
    {
      r := ExtractBestFrames(source(v), score);
    }

    /** The loop of `BestFramesExtractor.process` over the listed videos. */
    method ExtractAllVideos(videos: seq<Path>, source: Path -> Source, score: Frame -> real, ghost outcome: Path -> Result<seq<Frame>, ExtractorError>)
      returns (err: Option<ExtractorError>)
      requires config.comperingGroupSize >= 1 && IsVideoOutcome(outcome, source, config, score)
      modifies this
      ensures var run := BestFramesTrace(videos, outcome, config.processedVideoPrefix);
              effects == old(effects) + run.0 && err == run.1
    {
      ghost var prefix := config.processedVideoPrefix;
      ghost var run := BestFramesAcc(effects, videos, outcome, prefix);
      BestFramesAccTrace(effects, videos, outcome, prefix);
      var i := 0;
      assert videos[i..] == videos;
      while i < |videos|
        invariant 0 <= i <= |videos|
        invariant BestFramesAcc(effects, videos[i..], outcome, prefix) == run
      {
        BestFramesAccAt(effects, videos, i, outcome, prefix);
        var frames := ExtractVideo(videos[i], source, score, outcome);
        if frames.Err? {
          return Some(frames.error);
        }
        SaveImages(frames.value);
        var _ := AddPrefix(config.processedVideoPrefix, videos[i]);
        i := i + 1;
      }
      assert videos[i..] == [];
      return None;
    }

    /** `TopImagesExtractor.process`: list the images, build the evaluator, then
        walk the list in slices of `batch_size`: read, score, save the top
        percent. A zero step is an error once the evaluator is built; a
        negative one visits nothing. */
    method ProcessTopImages(entries: seq<Entry>, read: Path -> Option<Frame>, score: Frame -> real) returns (err: Option<ExtractorError>)
      modifies this
      ensures var listed := ListInputDirectoryFiles(entries, config.imagesExtensions, None);
              if listed.Err? then err == Some(listed.error) && effects == old(effects)
              else if config.batchSize == 0 then err == Some(ZeroBatchStep) && effects == old(effects) + [EvaluatorBuilt]
              else if config.batchSize < 0 then err == None && effects == old(effects) + [EvaluatorBuilt]
              else
                var run := TopImagesTrace(Batches(InDirectory(config.inputDirectory, listed.value), config.batchSize),
                                          s => SliceTop(s, read, score, config.topImagesPercent));
                effects == old(effects) + [EvaluatorBuilt] + run.0 && err == run.1
    {
      var listed := ListInputDirectoryFiles(entries, config.imagesExtensions, None);
      if listed.Err? {
        return Some(listed.error);
      }
      var paths := InDirectory(config.inputDirectory, listed.value);
      GetImageEvaluator();
      var k := config.batchSize;
      if k == 0 {
        return Some(ZeroBatchStep);
      }
      if k < 0 {
        return None;
      }
      err := ExtractAllSlices(paths, k, read, score, s => SliceTop(s, read, score, config.topImagesPercent));
    }

    /** The body of that loop up to the save: read the slice, score what
        could be read and keep the top percent. */
    method TopOfSlice(slice: seq<Path>, read: Path -> Option<Frame>, score: Frame -> real, ghost outcome: seq<Path> -> Result<seq<Frame>, ExtractorError>)
      returns (top: Result<seq<Frame>, ExtractorError>)
      requires IsSliceOutcome(outcome, read, score, config.topImagesPercent)
      ensures top == outcome(slice)
    {
      var images := ReadImages(slice, read);
      top := GetTopPercentImages(images, Scores(images, score), config.topImagesPercent);
      assert top == SliceTop(slice, read, score, config.topImagesPercent);
    }

    /** The loop of `TopImagesExtractor.process` over the slices of the listing. */
    method ExtractAllSlices(paths: seq<Path>, k: nat, read: Path -> Option<Frame>, score: Frame -> real, ghost outcome: seq<Path> -> Result<seq<Frame>, ExtractorError>)
      returns (err: Option<ExtractorError>)
      requires k >= 1 && IsSliceOutcome(outcome, read, score, config.topImagesPercent)
      modifies this
      ensures var run := TopImagesTrace(Batches(paths, k), outcome);
              effects == old(effects) + run.0 && err == run.1
    {
      ghost var run := TopImagesRun(effects, paths, k, outcome);
      TopImagesRunSlices(effects, paths, k, outcome);
      var i := 0;
      assert paths[i..] == paths;
      while i < |paths|
        invariant 0 <= i <= |paths|
        invariant TopImagesRun(effects, paths[i..], k, outcome) == run
        decreases |paths| - i
      {
        var end := if i + k < |paths| then i + k else |paths|;
        TopImagesRunAt(effects, paths, i, k, outcome);
        var top := TopOfSlice(paths[i..end], read, score, outcome);
        if top.Err? {
          return Some(top.error);
        }
        SaveImages(top.value);
        i := end;
      }
      assert paths[i..] == [];
      return None;
    }
  }

  /** The top-images run visits every listed image exactly once, in listing
      order, in slices of at most `batch_size`, all but the last exactly that
      long; an image that cannot be read is skipped. */
  lemma TopImagesSlices(paths: seq<Path>, k: int)
    requires k >= 1
    ensures Flatten(Batches(paths, k)) == paths
    ensures forall i :: 0 <= i < |Batches(paths, k)| ==> 1 <= |Batches(paths, k)[i]| <= k
    ensures forall i :: 0 <= i < |Batches(paths, k)| - 1 ==> |Batches(paths, k)[i]| == k
  {
    BatchesProperties(paths, k);
  }
}
