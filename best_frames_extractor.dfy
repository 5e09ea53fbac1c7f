/** The best-frames extractor of the frames evaluators service: list the
    unprocessed videos of a folder, read each video frame by frame, score one
    frame per `int(fps)` frames read, save the best of every `N` scored
    frames, and mark the video as processed by renaming it. */
module BestFramesExtractors {
  import opened Wrappers
  import opened Paths
  import opened Video
  import opened Batching
  import opened ArgMax
  import opened FramesEvaluator

  /** The video extensions `filter_videos_from_files` accepts. */
  const VideoExtensions: seq<string> := [".avi", ".mp4", ".mov", ".webm", ".wmv", ".flv"]

  /** A listed video: its path and its file name. */
  datatype VideoFile = VideoFile(path: string, filename: string)

  /** Each frame with its score. */
  function Scored(frames: seq<Frame>, score: Frame -> real): (r: seq<ScoredFrame>)
    ensures |r| == |frames|
  {
    if frames == [] then []
    else Scored(frames[..|frames| - 1], score) + [ScoredFrame(frames[|frames| - 1], score(frames[|frames| - 1]))]
  }

  lemma {:induction false} ScoredAt(frames: seq<Frame>, score: Frame -> real, i: nat)
    requires i < |frames|
    ensures Scored(frames, score)[i] == ScoredFrame(frames[i], score(frames[i]))
  {
    var n := |frames| - 1;
    if i < n {
      ScoredAt(frames[..n], score, i);
      assert frames[..n][i] == frames[i];
    }
  }

  /** `max(batch, key=score)`: the frame of the first entry with the
      highest score. */
  function BestOf(batch: seq<ScoredFrame>): (f: Frame)
    requires batch != []
  {
    batch[FirstArgMax(ScoresOf(batch))].frame
  }

  /** `max` picks an entry whose score no other entry exceeds and that no
      earlier entry equals. */
  lemma BestOfIsFirstMax(batch: seq<ScoredFrame>)
    requires batch != []
    ensures exists k :: 0 <= k < |batch| && BestOf(batch) == batch[k].frame &&
              (forall j :: 0 <= j < |batch| ==> batch[j].score <= batch[k].score) &&
              (forall j :: 0 <= j < k ==> batch[j].score < batch[k].score)
  {
    var k := FirstArgMax(ScoresOf(batch));
    assert ScoresOf(batch)[k] == batch[k].score;
  }

  /** The best frame of each batch, in order. */
  function Bests(batches: seq<seq<ScoredFrame>>): (r: seq<Frame>)
    requires forall i :: 0 <= i < |batches| ==> batches[i] != []
    ensures |r| == |batches|
  {
    if batches == [] then []
    else
      var n := |batches| - 1;
      Bests(batches[..n]) + [BestOf(batches[n])]
  }

  /** Every full batch holds `k >= 1` items. */
  lemma ChunksNonEmpty<T>(s: seq<T>, k: int)
    ensures forall i :: 0 <= i < |FullChunks(s, k)| ==> FullChunks(s, k)[i] != []
  {
    ChunksCover(s, k);
    forall i | 0 <= i < |FullChunks(s, k)|
      ensures FullChunks(s, k)[i] != []
    {
      assert FullChunks(s, k)[i] in FullChunks(s, k);
      assert k >= 1;
    }
  }

  /** What `_extract_and_save_best_frame` saves over a stream of scored
      frames: the best of each complete batch of `n`. */
  function BestFrames(scored: seq<ScoredFrame>, n: int): (r: seq<Frame>)
  {
    ChunksNonEmpty(scored, n);
    Bests(FullChunks(scored, n))
  }

  /** Scoring one more frame saves the best of the pending batch exactly when
      that frame completes it. */
  lemma BestFramesAppend(scored: seq<ScoredFrame>, x: ScoredFrame, n: int)
    ensures n >= 1 && |Rest(scored, n)| + 1 == n ==>
              Rest(scored, n) + [x] != [] &&
              BestFrames(scored + [x], n) == BestFrames(scored, n) + [BestOf(Rest(scored, n) + [x])] &&
              Rest(scored + [x], n) == []
    ensures !(n >= 1 && |Rest(scored, n)| + 1 == n) ==>
              BestFrames(scored + [x], n) == BestFrames(scored, n) && Rest(scored + [x], n) == Rest(scored, n) + [x]
  {
    ChunksAppend(scored, x, n);
    ChunksNonEmpty(scored, n);
    ChunksNonEmpty(scored + [x], n);
    var full := FullChunks(scored + [x], n);
    if n >= 1 && |Rest(scored, n)| + 1 == n {
      assert full[..|full| - 1] == FullChunks(scored, n);
    }
  }

  /** The `j`-th full batch of a stream is its `j`-th run of `k` items. */
  lemma {:induction false} FullChunksAt<T>(s: seq<T>, k: nat, j: nat)
    requires k >= 1 && j < |s| / k
    ensures |FullChunks(s, k)| == |s| / k
    ensures (j + 1) * k <= |s| && FullChunks(s, k)[j] == s[j * k..(j + 1) * k]
    decreases |s|
  {
    FullChunksLength(s, k);
    FullChunksElem(s, k, j);
  }

  /** The `j`-th full batch is the `j`-th run of `k` items. */
  lemma {:induction false} FullChunksElem<T>(s: seq<T>, k: nat, j: nat)
    requires k >= 1 && j < |FullChunks(s, k)|
    ensures (j + 1) * k <= |s| && FullChunks(s, k)[j] == s[j * k..(j + 1) * k]
    decreases |s|
  {
    var rest := s[k..];
    if j > 0 {
      FullChunksElem(rest, k, j - 1);
      var a := (j - 1) * k;
      assert a + k == j * k;
      assert j * k + k == (j + 1) * k;
      assert rest[a..a + k] == s[j * k..(j + 1) * k];
    }
  }

  /** Cutting `k` items off the front lowers the quotient by one. */
  lemma DivStep2(n: nat, k: nat)
    requires k >= 1 && n >= k
    ensures (n - k) / k == n / k - 1
  {
    DivUnique(n, k, (n - k) / k + 1, (n - k) % k);
  }

  /** A stream shorter than `k` has no full batch; `|s| / k` of them in all. */
  lemma {:induction false} FullChunksLength<T>(s: seq<T>, k: nat)
    requires k >= 1
    ensures |FullChunks(s, k)| == |s| / k
    decreases |s|
  {
    if |s| < k {
      DivUnique(|s|, k, 0, |s|);
    } else {
      FullChunksLength(s[k..], k);
      DivStep2(|s|, k);
    }
  }

  /** Over `m` scored frames, `m / n` frames are saved, the `j`-th the first
      best of scored frames `j * n` to `(j + 1) * n - 1`; the frames after
      the last complete batch are never saved. */
  lemma BestFramesExact(scored: seq<ScoredFrame>, n: nat, j: nat)
    requires n >= 1 && j < |scored| / n
    ensures |BestFrames(scored, n)| == |scored| / n
    ensures (j + 1) * n <= |scored| && BestFrames(scored, n)[j] == BestOf(scored[j * n..(j + 1) * n])
  {
    FullChunksAt(scored, n, j);
    ChunksNonEmpty(scored, n);
    BestsAt(FullChunks(scored, n), j);
  }

  lemma {:induction false} BestsAt(batches: seq<seq<ScoredFrame>>, j: nat)
    requires forall i :: 0 <= i < |batches| ==> batches[i] != []
    requires j < |batches|
    ensures Bests(batches)[j] == BestOf(batches[j])
  {
    var n := |batches| - 1;
    if j < n {
      BestsAt(batches[..n], j);
      assert batches[..n][j] == batches[j];
    }
  }

  /** The frames `process_video_frames` scores when reading on from `done`
      with the truncated rate `t`: those whose 1-based read count is a
      multiple of `t`. */
  function KeptFrames(src: Source, done: nat, t: nat): seq<Frame>
  {
    if t == 0 then [] else EveryNth(StreamFrames(src, done), t)
  }

  /** `t` divides `m` exactly when `|t|` does; Python's `%` and Dafny's
      agree on when the remainder is zero. */
  lemma ModZeroAbs(m: nat, t: int)
    requires t != 0
    ensures m % t == 0 <==> m % Abs(t) == 0
  {
    if t < 0 {
      var q, r := m / t, m % t;
      assert m == t * q + r && 0 <= r < -t;
      assert m == (-t) * (-q) + r;
      DivUnique(m, -t, -q, r);
    }
  }

  function Abs(t: int): nat
  {
    if t < 0 then -t else t
  }

  /** What the extraction of one video saves or raises: too few frames to
      compare is refused before opening; a video that does not open raises;
      a truncated rate of 0 raises at the first frame read; otherwise the
      best frame of each complete batch of `n` scored frames is saved. */
  function VideoOutcome(src: Source, path: string, n: int, score: Frame -> real): Result<seq<Frame>, FramesError>
  {
    if n < 2 then Err(TooFewFramesToCompare(n))
    else if !OpenAfter(src, 0) then Err(CantOpen(path))
    else
      var t := Abs(Trunc(src.fps));
      if t == 0 && StreamFrames(src, 0) != [] then Err(DivisionByZero)
      else Ok(BestFrames(Scored(KeptFrames(src, 0, t), score), n))
  }

  /** `outcome` gives, for every path, what extracting that video does. */
  ghost predicate IsOutcome(outcome: string -> Result<seq<Frame>, FramesError>, media: string -> Source, n: int, score: Frame -> real)
  {
    forall p {:trigger VideoOutcome(media(p), p, n, score)} :: outcome(p) == VideoOutcome(media(p), p, n, score)
  }

  /** The unprocessed videos among some listed paths, in order: those whose
      file name does not start with the prefix. */
  function Unprocessed(paths: seq<string>, prefix: string): (r: seq<VideoFile>)
    ensures forall v :: v in r <==> v.path in paths && v.filename == Basename(v.path) && !StartsWith(v.filename, prefix)
  {
    if paths == [] then []
    else
      var p := paths[|paths| - 1];
      var rest := Unprocessed(paths[..|paths| - 1], prefix);
      assert paths == paths[..|paths| - 1] + [p];
      if StartsWith(Basename(p), prefix) then rest else rest + [VideoFile(p, Basename(p))]
  }

  /** The effects and the error of the run over `videos` after `acc`: each
      video's best frames are saved, then the video is renamed to
      `folder/(prefix + filename)`; the first video that raises ends the run. */
  function RunAcc(acc: seq<DiskEffect>, videos: seq<VideoFile>, outcome: string -> Result<seq<Frame>, FramesError>,
                  folder: string, prefix: string, outputFolder: string, clock: nat -> nat): (seq<DiskEffect>, Option<FramesError>)
    decreases |videos|
  {
    if videos == [] then (acc, None)
    else
      match outcome(videos[0].path)
      case Err(e) => (acc, Some(e))
      case Ok(frames) =>
        RunAcc(acc + Writes(outputFolder, frames, clock, |acc|) + [Renamed(videos[0].path, Join(folder, prefix + videos[0].filename))],
               videos[1..], outcome, folder, prefix, outputFolder, clock)
  }

  /** One video of the run: a failing video ends it with its error; a video
      that extracts adds its saves and its rename before the rest. */
  lemma RunAccStep(acc: seq<DiskEffect>, videos: seq<VideoFile>, i: nat, outcome: string -> Result<seq<Frame>, FramesError>,
                   folder: string, prefix: string, outputFolder: string, clock: nat -> nat)
    requires i < |videos|
    ensures outcome(videos[i].path).Err? ==>
              RunAcc(acc, videos[i..], outcome, folder, prefix, outputFolder, clock) == (acc, Some(outcome(videos[i].path).error))
    ensures outcome(videos[i].path).Ok? ==>
              RunAcc(acc, videos[i..], outcome, folder, prefix, outputFolder, clock) ==
              RunAcc(acc + Writes(outputFolder, outcome(videos[i].path).value, clock, |acc|) +
                       [Renamed(videos[i].path, Join(folder, prefix + videos[i].filename))],
                     videos[i + 1..], outcome, folder, prefix, outputFolder, clock)
  {
    assert videos[i..][0] == videos[i] && videos[i..][1..] == videos[i + 1..];
  }

  /** How many videos, from the first, extract without raising. */
  function Processed(videos: seq<VideoFile>, outcome: string -> Result<seq<Frame>, FramesError>): (m: nat)
    ensures m <= |videos|
    ensures m < |videos| ==> outcome(videos[m].path).Err?
  {
    if videos == [] || outcome(videos[0].path).Err? then 0 else 1 + Processed(videos[1..], outcome)
  }

  /** The renames of the videos, in order, each to its prefixed name. */
  function RenamesOf(videos: seq<VideoFile>, folder: string, prefix: string): (r: seq<DiskEffect>)
    ensures |r| == |videos|
  {
    if videos == [] then []
    else [Renamed(videos[0].path, Join(folder, prefix + videos[0].filename))] + RenamesOf(videos[1..], folder, prefix)
  }

  /** The run renames exactly the videos that extracted without raising, in
      listing order, each after its own saves; it raises the error of the
      first video that fails, and only when one fails. */
  lemma {:induction false} RunRenames(acc: seq<DiskEffect>, videos: seq<VideoFile>, outcome: string -> Result<seq<Frame>, FramesError>,
                                       folder: string, prefix: string, outputFolder: string, clock: nat -> nat)
    ensures var run := RunAcc(acc, videos, outcome, folder, prefix, outputFolder, clock);
            var m := Processed(videos, outcome);
            RenamesIn(run.0) == RenamesIn(acc) + RenamesOf(videos[..m], folder, prefix) &&
            (run.1.None? <==> m == |videos|) &&
            (m < |videos| ==> run.1 == Some(outcome(videos[m].path).error))
    decreases |videos|
  {
    if videos != [] && outcome(videos[0].path).Ok? {
      var v := videos[0];
      var frames := outcome(v.path).value;
      var r := Renamed(v.path, Join(folder, prefix + v.filename));
      var acc2 := acc + Writes(outputFolder, frames, clock, |acc|) + [r];
      assert RunAcc(acc, videos, outcome, folder, prefix, outputFolder, clock) ==
             RunAcc(acc2, videos[1..], outcome, folder, prefix, outputFolder, clock);
      RunRenames(acc2, videos[1..], outcome, folder, prefix, outputFolder, clock);
      RenamesOfVideoStep(acc, outputFolder, frames, clock, r);
      RenamesOfCons(videos, Processed(videos, outcome), folder, prefix);
    } else if videos != [] {
      assert videos[..0] == [];
    }
  }

  /** Saving a video's frames and renaming it adds that one rename. */
  lemma RenamesOfVideoStep(acc: seq<DiskEffect>, outputFolder: string, frames: seq<Frame>, clock: nat -> nat, r: DiskEffect)
    requires r.Renamed?
    ensures RenamesIn(acc + Writes(outputFolder, frames, clock, |acc|) + [r]) == RenamesIn(acc) + [r]
  {
    var w := Writes(outputFolder, frames, clock, |acc|);
    RenamesInAppend(acc + w, [r]);
    RenamesInAppend(acc, w);
    NoRenamesInWrites(outputFolder, frames, clock, |acc|);
    assert RenamesIn([r]) == RenamesIn([]) + [r];
  }

  lemma RenamesOfCons(videos: seq<VideoFile>, m: nat, folder: string, prefix: string)
    requires 1 <= m <= |videos|
    ensures RenamesOf(videos[..m], folder, prefix) ==
            [Renamed(videos[0].path, Join(folder, prefix + videos[0].filename))] + RenamesOf(videos[1..][..m - 1], folder, prefix)
    ensures m < |videos| ==> videos[m] == videos[1..][m - 1]
  {
    assert videos[..m][1..] == videos[1..][..m - 1];
  }

  /** A renamed video is not listed again: its new name starts with the
      prefix, and so does the base name of its new path. */
  lemma RenamedVideoSkipped(folder: string, prefix: string, filename: string)
    requires '/' !in prefix && '/' !in filename
    ensures Basename(Join(folder, prefix + filename)) == prefix + filename
    ensures StartsWith(Basename(Join(folder, prefix + filename)), prefix)
  {
    assert '/' !in prefix + filename by {
      forall i | 0 <= i < |prefix + filename|
        ensures (prefix + filename)[i] != '/'
      {
        if i >= |prefix| {
          assert (prefix + filename)[i] == filename[i - |prefix|];
        }
      }
    }
    BasenameJoin(folder, prefix + filename);
    assert (prefix + filename)[..|prefix|] == prefix;
  }

  /** Counting one more item keeps it exactly when its count is a multiple of `t`. */
  lemma EveryNthStep<T>(s: seq<T>, c: nat, t: nat)
    requires 1 <= c <= |s| && t >= 1
    ensures EveryNth(s[..c], t) == EveryNth(s[..c - 1], t) + (if c % t == 0 then [s[c - 1]] else [])
  {
    assert s[..c][..c - 1] == s[..c - 1];
  }

  /** The frame that completes a batch gets the batch's best frame saved
      at the next clock reading. */
  lemma SavedComplete(folder: string, clock: nat -> nat, base: seq<DiskEffect>, log: seq<DiskEffect>,
                      scored: seq<ScoredFrame>, x: ScoredFrame, n: int)
    requires log == base + Writes(folder, BestFrames(scored, n), clock, |base|)
    requires |Rest(scored, n) + [x]| == n
    ensures Rest(scored + [x], n) == [] && Rest(scored, n) + [x] != []
    ensures log + [Wrote(FramePath(folder, clock(|log|), "jpg"), BestOf(Rest(scored, n) + [x]))] ==
            base + Writes(folder, BestFrames(scored + [x], n), clock, |base|)
  {
    BestFramesAppend(scored, x, n);
    LogAppendWrite(folder, clock, base, log, BestFrames(scored, n), BestOf(Rest(scored, n) + [x]));
  }


  /** `BestFramesExtractor`: the output folder, the quality metric and the
      file system it works on. */
  class BestFramesExtractor {
    const outputFolder: string
    const score: Frame -> real
    const disk: Disk

    /** `Evaluator.__init__`: the output folder is created when missing. */
    constructor(outputFolder: string, score: Frame -> real, disk: Disk)
      modifies disk
      ensures this.outputFolder == outputFolder && this.score == score && this.disk == disk
      ensures disk.Exists(outputFolder)
      ensures old(disk.Exists(outputFolder)) ==> disk.dirs == old(disk.dirs) && disk.log == old(disk.log)
      ensures !old(disk.Exists(outputFolder)) ==>
                disk.dirs == old(disk.dirs)[outputFolder := []] && disk.log == old(disk.log) + [MadeDirs(outputFolder)]
    {
      this.outputFolder := outputFolder;
      this.score := score;
      this.disk := disk;
      new;
      disk.CheckFolderExists(outputFolder);
    }

    /** `filter_videos_from_files`: the `*ext` matches of the folder (after
        the extension check and the folder check) whose file name lacks the
        processed prefix. */
    function FilterVideosFromFiles(folder: string, ext: string, prefix: string): (r: Result<seq<VideoFile>, FramesError>)
      reads disk
      ensures r.Err? <==> disk.GetFilesWithSpecificExtensionFromFolder(folder, ext, VideoExtensions).Err?
      ensures r.Err? ==> r.error == disk.GetFilesWithSpecificExtensionFromFolder(folder, ext, VideoExtensions).error
      ensures r.Ok? ==> r.value == Unprocessed(disk.GetFilesWithSpecificExtensionFromFolder(folder, ext, VideoExtensions).value, prefix)
    {
      match disk.GetFilesWithSpecificExtensionFromFolder(folder, ext, VideoExtensions)
      case Err(e) => Err(e)
      case Ok(paths) => Ok(Unprocessed(paths, prefix))
    }

    /** The videos listed are exactly the folder's `*ext` entries whose name
        lacks the prefix, each with its own name as file name. */
    lemma FilterVideosExact(folder: string, ext: string, prefix: string, v: VideoFile)
      requires ext in VideoExtensions && folder in disk.dirs
      requires forall n :: n in disk.dirs[folder] ==> '/' !in n
      ensures FilterVideosFromFiles(folder, ext, prefix).Ok?
      ensures v in FilterVideosFromFiles(folder, ext, prefix).value <==>
                exists n :: n in disk.dirs[folder] && GlobStarMatch(n, ext) && !StartsWith(n, prefix) &&
                            v == VideoFile(Join(folder, n), n)
    {
      var names := disk.dirs[folder];
      if v in FilterVideosFromFiles(folder, ext, prefix).value {
        var n :| n in names && GlobStarMatch(n, ext) && v.path == Join(folder, n);
        BasenameJoin(folder, n);
      }
      if exists n :: n in names && GlobStarMatch(n, ext) && !StartsWith(n, prefix) && v == VideoFile(Join(folder, n), n) {
        var n :| n in names && GlobStarMatch(n, ext) && !StartsWith(n, prefix) && v == VideoFile(Join(folder, n), n);
        BasenameJoin(folder, n);
      }
    }

    /** `get_video_capture`: a capture that does not open is released and
        reported with its path; otherwise it is handed over unreleased. */
    method GetVideoCapture(videoPath: string) returns (cap: Capture, err: Option<FramesError>)
      ensures fresh(cap) && cap.source == disk.media(videoPath) && cap.position == 0 && cap.done == 0
      ensures err.Some? <==> !OpenAfter(disk.media(videoPath), 0)
      ensures err.Some? ==> err.value == CantOpen(videoPath) && cap.released
      ensures err.None? ==> !cap.released
    {
      cap := new Capture(disk.media(videoPath));
      if !cap.IsOpened() {
        cap.Release();
        return cap, Some(CantOpen(videoPath));
      }
      err := None;
    }

    /** `_extract_and_save_best_frame`: score the frame and add it to the
        batch; a batch that reaches `n` has its first best frame saved and is
        emptied. */
    method ExtractAndSaveBestFrame(frame: Frame, batch: seq<ScoredFrame>, n: int) returns (batch2: seq<ScoredFrame>)
      modifies disk
      ensures disk.dirs == old(disk.dirs)
      ensures var b := batch + [ScoredFrame(frame, score(frame))];
              if |b| == n then
                batch2 == [] && disk.log == old(disk.log) + [Wrote(FramePath(outputFolder, disk.clock(|old(disk.log)|), "jpg"), BestOf(b))]
              else
                batch2 == b && disk.log == old(disk.log)
    {
      var s := score(frame);
      batch2 := batch + [ScoredFrame(frame, s)];
      if |batch2| == n {
        var k := FirstArgMax(ScoresOf(batch2));
        var path := disk.SaveNdarrayFrame(outputFolder, batch2[k].frame, "jpg");
        batch2 := [];
      }
    }

    /** The state of `process_video_frames` once `kept` frames were scored
        since the log read `base`: the best of every complete batch was saved
        in order, and `batch` holds the scored frames of the incomplete one. */
    predicate SavedSoFar(base: seq<DiskEffect>, log: seq<DiskEffect>, kept: seq<Frame>, batch: seq<ScoredFrame>, n: int)
    {
      batch == Rest(Scored(kept, score), n) &&
      log == base + Writes(outputFolder, BestFrames(Scored(kept, score), n), disk.clock, |base|)
    }

    /** One call of `_extract_and_save_best_frame` keeps that state. */
    lemma SavedStep(base: seq<DiskEffect>, log: seq<DiskEffect>, kept: seq<Frame>, batch: seq<ScoredFrame>, n: int,
                    frame: Frame, log2: seq<DiskEffect>, batch2: seq<ScoredFrame>)
      requires SavedSoFar(base, log, kept, batch, n)
      requires var b := batch + [ScoredFrame(frame, score(frame))];
               if |b| == n then
                 batch2 == [] && log2 == log + [Wrote(FramePath(outputFolder, disk.clock(|log|), "jpg"), BestOf(b))]
               else
                 batch2 == b && log2 == log
      ensures SavedSoFar(base, log2, kept + [frame], batch2, n)
    {
      var x := ScoredFrame(frame, score(frame));
      var scored := Scored(kept, score);
      assert Scored(kept + [frame], score) == scored + [x];
      if |batch + [x]| == n {
        SavedComplete(outputFolder, disk.clock, base, log, scored, x, n);
      } else {
        BestFramesAppend(scored, x, n);
      }
    }

    /** `process_video_frames`: read every frame in order while the capture
        reports itself open, stop at the first failed read, count the frames
        read from 1, and pass on those whose count is a multiple of
        `int(fps)`. A truncated rate of 0 raises at the first frame read. */
    method ProcessVideoFrames(cap: Capture, n: int) returns (err: Option<FramesError>)
      requires cap.position == cap.done
      modifies cap, disk
      ensures cap.released == old(cap.released) && disk.dirs == old(disk.dirs)
      ensures !old(cap.IsOpened()) ==> err == None && disk.log == old(disk.log)
      ensures old(cap.IsOpened()) ==>
                var t := Abs(Trunc(cap.source.fps));
                if t == 0 && StreamFrames(cap.source, old(cap.done)) != [] then
                  err == Some(DivisionByZero) && disk.log == old(disk.log)
                else
                  err == None &&
                  disk.log == old(disk.log) + Writes(outputFolder, BestFrames(Scored(KeptFrames(cap.source, old(cap.done), t), score), n),
                                                     disk.clock, |old(disk.log)|)
    {
      var framesPerSecond := if cap.IsOpened() then cap.source.fps else 0.0;
      var rate := Trunc(framesPerSecond);
      ghost var t := Abs(Trunc(cap.source.fps));
      ghost var src := cap.source;
      ghost var d := cap.done;
      ghost var stream := StreamFrames(src, d);
      ghost var kept: seq<Frame> := [];
      var frameCount: nat := 0;
      var batch: seq<ScoredFrame> := [];
      while cap.IsOpened()
        invariant cap.done == cap.position == d + frameCount
        invariant cap.released == old(cap.released) && disk.dirs == old(disk.dirs)
        invariant frameCount <= |stream|
        invariant frameCount > 0 ==> old(cap.IsOpened()) && rate == Trunc(src.fps) && t >= 1
        invariant t >= 1 ==> kept == EveryNth(stream[..frameCount], t)
        invariant t == 0 ==> kept == []
        invariant SavedSoFar(old(disk.log), disk.log, kept, batch, n)
        decreases |stream| - frameCount
      {
        StreamFramesAt(src, d, frameCount);
        var frame := cap.Read();
        if frame.None? {
          break;
        }
        frameCount := frameCount + 1;
        if rate == 0 {
          assert stream != [];
          return Some(DivisionByZero);
        }
        ModZeroAbs(frameCount, rate);
        EveryNthStep(stream, frameCount, t);
        if frameCount % rate == 0 {
          ghost var log := disk.log;
          var batch2 := ExtractAndSaveBestFrame(frame.value, batch, n);
          SavedStep(old(disk.log), log, kept, batch, n, frame.value, disk.log, batch2);
          batch := batch2;
          kept := kept + [frame.value];
        }
      }
      StreamFramesAt(src, d, frameCount);
      assert old(cap.IsOpened()) ==> stream[..frameCount] == stream;
      err := None;
    }

    /** `extract_best_frames_from_video`: refuse fewer than two frames to
        compare before opening anything; otherwise open the video, process
        its frames and release the capture whether processing raises or not. */
    method ExtractBestFramesFromVideo(videoPath: string, n: int) returns (capture: Option<Capture>, err: Option<FramesError>)
      modifies disk
      ensures disk.dirs == old(disk.dirs)
      ensures n < 2 ==> capture == None
      ensures n >= 2 ==> capture.Some? && fresh(capture.value) && capture.value.released
      ensures match VideoOutcome(disk.media(videoPath), videoPath, n, score)
              case Err(e) => err == Some(e) && disk.log == old(disk.log)
              case Ok(frames) => err == None && disk.log == old(disk.log) + Writes(outputFolder, frames, disk.clock, |old(disk.log)|)
    {
      if n < 2 {
        return None, Some(TooFewFramesToCompare(n));
      }
      var cap;
      cap, err := GetVideoCapture(videoPath);
      capture := Some(cap);
      if err.Some? {
        return;
      }
      err := ProcessVideoFrames(cap, n);
      cap.Release();
    }

    /** `change_processed_video_name`: rename the video to the prefixed file
        name inside the videos folder. */
    method ChangeProcessedVideoName(videosFolder: string, videoPath: string, videoFilename: string, prefix: string)
      modifies disk
      ensures disk.dirs == old(disk.dirs)
      ensures disk.log == old(disk.log) + [Renamed(videoPath, Join(videosFolder, prefix + videoFilename))]
    {
      disk.Rename(videoPath, Join(videosFolder, prefix + videoFilename));
    }

    /** `extract_best_frames_from_all_videos_in_folder`: list the unprocessed
        videos, then for each extract its best frames and only then rename
        it; the first error ends the run. */
    method ExtractBestFramesFromAllVideosInFolder(videosFolder: string, ext: string, n: int, prefix: string,
                                                  ghost outcome: string -> Result<seq<Frame>, FramesError>)
      returns (err: Option<FramesError>)
      requires IsOutcome(outcome, disk.media, n, score)
      modifies disk
      ensures disk.dirs == old(disk.dirs)
      ensures var listed := old(FilterVideosFromFiles(videosFolder, ext, prefix));
              if listed.Err? then err == Some(listed.error) && disk.log == old(disk.log)
              else (disk.log, err) == RunAcc(old(disk.log), listed.value, outcome, videosFolder, prefix, outputFolder, disk.clock)
    {
      var listed := FilterVideosFromFiles(videosFolder, ext, prefix);
      if listed.Err? {
        return Some(listed.error);
      }
      var videos := listed.value;
      ghost var run := RunAcc(disk.log, videos, outcome, videosFolder, prefix, outputFolder, disk.clock);
      var i := 0;
      assert videos[i..] == videos;
      while i < |videos|
        invariant 0 <= i <= |videos| && disk.dirs == old(disk.dirs)
        invariant RunAcc(disk.log, videos[i..], outcome, videosFolder, prefix, outputFolder, disk.clock) == run
      {
        RunAccStep(disk.log, videos, i, outcome, videosFolder, prefix, outputFolder, disk.clock);
        assert outcome(videos[i].path) == VideoOutcome(disk.media(videos[i].path), videos[i].path, n, score);
        var _, e := ExtractBestFramesFromVideo(videos[i].path, n);
        if e.Some? {
          return e;
        }
        ChangeProcessedVideoName(videosFolder, videos[i].path, videos[i].filename, prefix);
        i := i + 1;
      }
      assert videos[i..] == [];
      return None;
    }

    /** `extract_best_frames_from_all_videos_in_folder` with its defaults:
        `.mp4` videos, batches of 5, the `frames_extracted_` prefix. */
    method Process(inputFolder: string, ghost outcome: string -> Result<seq<Frame>, FramesError>) returns (err: Option<FramesError>)
      requires IsOutcome(outcome, disk.media, 5, score)
      modifies disk
      ensures disk.dirs == old(disk.dirs)
      ensures var listed := old(FilterVideosFromFiles(inputFolder, ".mp4", "frames_extracted_"));
              if listed.Err? then err == Some(listed.error) && disk.log == old(disk.log)
              else (disk.log, err) == RunAcc(old(disk.log), listed.value, outcome, inputFolder, "frames_extracted_", outputFolder, disk.clock)
    {
      err := ExtractBestFramesFromAllVideosInFolder(inputFolder, ".mp4", 5, "frames_extracted_", outcome);
    }
  }
}
