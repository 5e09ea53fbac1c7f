/** The sequential sampler of the image extractor service: read every frame
    in order, count the successful reads from 1, keep a frame when the count
    is a multiple of the rounded frame rate, and hand the kept frames out in
    packs of `required_size`; the last pack is handed out even when empty. */
module ImageExtractorVideo {
  import opened Wrappers
  import opened Batching
  import opened Video

  /** What reading on from position `done` with rounded rate `fps` yields and
      raises: `count % 0` fails at the first successful read; a capture that
      reports closed ends with the full packs only and an error; the end of
      the stream yields the pending pack too, even when it is empty. */
  function FramesPacks(src: Source, done: nat, fps: int, requiredSize: int): (seq<seq<Frame>>, Option<VideoError>)
    requires fps >= 0
  {
    var stream := StreamFrames(src, done);
    if fps == 0 && stream != [] then ([], Some(ZeroDivision))
    else
      var kept := if fps == 0 then [] else EveryNth(stream, fps);
      if StreamClosedEarly(src, done) then (FullChunks(kept, requiredSize), Some(VideoCaptureClosed))
      else (Packs(kept, requiredSize), None)
  }

  /** `_get_video_frames_pack`, run to the end: the packs yielded and the error
      raised, if any. Reading goes on from the capture's current position. */
  method GetVideoFramesPack(cap: Capture, requiredSize: int) returns (packs: seq<seq<Frame>>, err: Option<VideoError>)
    requires cap.position == cap.done
    modifies cap
    ensures !old(cap.IsOpened()) ==> packs == [] && err == Some(InvalidVideoCapture)
    ensures old(cap.IsOpened()) && cap.source.fps <= 0.0 ==> packs == [] && err == Some(InvalidFrameRate)
    ensures old(cap.IsOpened()) && cap.source.fps > 0.0 ==>
              RoundHalfEven(cap.source.fps) >= 0 &&
              (packs, err) == FramesPacks(cap.source, old(cap.done), RoundHalfEven(cap.source.fps), requiredSize)
    ensures cap.released == old(cap.released)
  {
    var rate := FrameRate(cap);
    if rate.Err? {
      return [], Some(rate.error);
    }
    var fps := rate.value;
    ghost var src := cap.source;
    ghost var d := cap.done;
    ghost var stream := StreamFrames(src, d);
    ghost var kept: seq<Frame> := [];
    var frameCount: nat := 0;
    var pack: seq<Frame> := [];
    packs := [];
    while true
      invariant cap.done == cap.position == d + frameCount
      invariant cap.released == old(cap.released) && !cap.released
      invariant frameCount <= |stream|
      invariant fps >= 1 ==> kept == EveryNth(stream[..frameCount], fps)
      invariant fps == 0 ==> frameCount == 0 && kept == []
      invariant packs == FullChunks(kept, requiredSize) && pack == Rest(kept, requiredSize)
      decreases |stream| - frameCount
    {
      StreamFramesAt(src, d, frameCount);
      if !cap.IsOpened() {
        assert stream[..frameCount] == stream;
        return packs, Some(VideoCaptureClosed);
      }
      var frame := cap.Read();
      if frame.None? {
        assert stream[..frameCount] == stream;
        packs := packs + [pack];
        break;
      }
      frameCount := frameCount + 1;
      if fps == 0 {
        return packs, Some(ZeroDivision);
      }
      assert stream[..frameCount][..frameCount - 1] == stream[..frameCount - 1];
      if frameCount % fps == 0 {
        packs, pack := Push(kept, packs, pack, frame.value, requiredSize);
        kept := kept + [frame.value];
      }
    }
    err := None;
  }

  /** `OpenCVVideo.get_next_video_frames`: open the capture, pass on every pack,
      and release the capture however the packs end. */
  method GetNextVideoFrames(src: Source, quantity: int) returns (cap: Capture, packs: seq<seq<Frame>>, err: Option<VideoError>)
    ensures fresh(cap) && cap.source == src && cap.released
    ensures !OpenAfter(src, 0) ==> packs == [] && err == Some(CantOpenVideoCapture)
    ensures OpenAfter(src, 0) && src.fps <= 0.0 ==> packs == [] && err == Some(InvalidFrameRate)
    ensures OpenAfter(src, 0) && src.fps > 0.0 ==>
              RoundHalfEven(src.fps) >= 0 && (packs, err) == FramesPacks(src, 0, RoundHalfEven(src.fps), quantity)
  {
    cap, err := OpenVideoCapture(src);
    if err.Some? {
      return cap, [], err;
    }
    packs, err := GetVideoFramesPack(cap, quantity);
    cap.Release();
  }

  /** A frame is kept exactly when its 1-based count of successful reads is a
      multiple of the rate: the `j`-th kept frame is the `(j + 1) * fps`-th
      frame read, and reading stops at the first failed read. */
  lemma KeptFrames(src: Source, fps: nat, j: nat)
    requires fps >= 1 && j < |StreamFrames(src, 0)| / fps
    ensures (j + 1) * fps <= |StreamFrames(src, 0)|
    ensures |EveryNth(StreamFrames(src, 0), fps)| == |StreamFrames(src, 0)| / fps
    ensures ReadAt(src, (j + 1) * fps - 1, (j + 1) * fps - 1) == Some(EveryNth(StreamFrames(src, 0), fps)[j])
  {
    EveryNthIndex(StreamFrames(src, 0), fps, j);
    StreamFramesPrefix(src, 0);
  }

  /** Every pack but the last holds exactly `required_size` frames, the last
      one fewer (possibly none), and the packs concatenate to the kept frames. */
  lemma PacksShape(kept: seq<Frame>, requiredSize: int)
    requires requiredSize >= 1
    ensures Flatten(Packs(kept, requiredSize)) == kept
    ensures forall i :: 0 <= i < |Packs(kept, requiredSize)| - 1 ==> |Packs(kept, requiredSize)[i]| == requiredSize
    ensures |Packs(kept, requiredSize)[|Packs(kept, requiredSize)| - 1]| < requiredSize
  {
    PacksProperties(kept, requiredSize);
  }
}
