/** The seek-based sampler of the extractor service: jump to every `fps`-th
    frame position below the reported frame count, read one frame there, stop
    at the first read that fails, and hand the frames out in batches. */
module VideoProcessors {
  import opened Wrappers
  import opened Batching
  import opened Video

  /** The frames the sampler reads from `src` with rounded rate `fps`. */
  function SampledFrames(src: Source, fps: nat): seq<Frame>
    requires fps >= 1
  {
    SeekReads(src, Positions(fps, Trunc(src.frameCount)), 0)
  }

  /** `OpenCVVideo.get_next_video_frames`, run to the end: every batch the
      generator yields, or the error it raises before yielding anything. The
      capture is released on every path. */
  method GetNextVideoFrames(src: Source, batchSize: int) returns (cap: Capture, batches: seq<seq<Frame>>, err: Option<VideoError>)
    ensures fresh(cap) && cap.source == src && cap.released
    ensures !OpenAfter(src, 0) ==> batches == [] && err == Some(CantOpenVideoCapture)
    ensures OpenAfter(src, 0) && src.fps <= 0.0 ==> batches == [] && err == Some(InvalidFrameRate)
    ensures OpenAfter(src, 0) && src.fps > 0.0 && RoundHalfEven(src.fps) == 0 ==>
              batches == [] && err == Some(ZeroRangeStep)
    ensures OpenAfter(src, 0) && src.fps > 0.0 && RoundHalfEven(src.fps) >= 1 ==>
              err == None && batches == Batches(SampledFrames(src, RoundHalfEven(src.fps)), batchSize)
  {
    cap, err := OpenVideoCapture(src);
    if err.Some? {
      return cap, [], err;
    }
    var rate := FrameRate(cap);
    if rate.Err? {
      cap.Release();
      return cap, [], Some(rate.error);
    }
    var fps := rate.value;
    var total := Trunc(cap.source.frameCount);
    if fps == 0 {
      cap.Release();
      return cap, [], Some(ZeroRangeStep);
    }
    batches := SeekBatches(cap, Positions(fps, total), batchSize);
    cap.Release();
    err := None;
  }

  /** The loop of `get_next_video_frames` over the positions: seek, read, stop
      at the first failed read, and cut the frames into batches of `batchSize`,
      the last possibly shorter. */
  method SeekBatches(cap: Capture, ps: seq<nat>, batchSize: int) returns (batches: seq<seq<Frame>>)
    requires cap.done == 0 && !cap.released
    modifies cap
    ensures !cap.released
    ensures batches == Batches(SeekReads(cap.source, ps, 0), batchSize)
  {
    ghost var src := cap.source;
    ghost var want := SeekReads(src, ps, 0);
    ghost var read: seq<Frame> := [];
    var batch: seq<Frame> := [];
    batches := [];
    var k: nat := 0;
    while k < |ps|
      invariant k <= |ps| && k <= |want|
      invariant cap.done == k && !cap.released
      invariant read == want[..k]
      invariant batches == FullChunks(read, batchSize) && batch == Rest(read, batchSize)
    {
      cap.SetPosition(ps[k]);
      var frame := cap.Read();
      SeekReadAt(src, ps, k);
      if frame.None? {
        break;
      }
      batches, batch := Push(read, batches, batch, frame.value, batchSize);
      read := read + [frame.value];
      k := k + 1;
    }
    assert read == want;
    if batch != [] {
      batches := batches + [batch];
    }
  }

  /** Nothing is yielded when the reported frame count truncates to 0 or less,
      or when the very first read fails. */
  lemma NothingYielded(src: Source, fps: nat, batchSize: int)
    requires fps >= 1
    requires Trunc(src.frameCount) <= 0 || ReadAt(src, 0, 0).None?
    ensures Batches(SampledFrames(src, fps), batchSize) == []
  {
    var ps := Positions(fps, Trunc(src.frameCount));
    if ps != [] {
      PositionsExact(fps, Trunc(src.frameCount));
      assert ps[0] == 0;
    }
    BatchesProperties(SampledFrames(src, fps), batchSize);
  }

  /** What the batches are made of: they concatenate to the frames read at
      positions `0, fps, 2 fps, ...` in order, each read being the one at its
      position, every batch is non-empty and at most `batchSize` long, and all
      but the last hold exactly `batchSize` frames. */
  lemma SampledBatches(src: Source, fps: nat, batchSize: int)
    requires fps >= 1
    ensures var frames := SampledFrames(src, fps);
            Flatten(Batches(frames, batchSize)) == frames &&
            (forall i :: 0 <= i < |Batches(frames, batchSize)| ==> Batches(frames, batchSize)[i] != []) &&
            (batchSize >= 1 ==> forall i :: 0 <= i < |Batches(frames, batchSize)| - 1 ==> |Batches(frames, batchSize)[i]| == batchSize) &&
            (batchSize >= 1 ==> forall i :: 0 <= i < |Batches(frames, batchSize)| ==> |Batches(frames, batchSize)[i]| <= batchSize)
    ensures forall j :: 0 <= j < |SampledFrames(src, fps)| ==>
              ReadAt(src, j * fps, j) == Some(SampledFrames(src, fps)[j])
  {
    var total := Trunc(src.frameCount);
    var ps := Positions(fps, total);
    BatchesProperties(SampledFrames(src, fps), batchSize);
    SeekReadsPrefix(src, ps, 0);
    PositionsExact(fps, total);
    forall j | 0 <= j < |SampledFrames(src, fps)|
      ensures ReadAt(src, j * fps, j) == Some(SampledFrames(src, fps)[j])
    {
      assert ps[j] == j * fps;
      assert ReadAt(src, ps[j], 0 + j) == Some(SeekReads(src, ps, 0)[j]);
    }
  }
}
