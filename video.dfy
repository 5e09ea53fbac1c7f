/** The video side of the engine: an OpenCV capture over an abstract decoder,
    Python's `round` and `int` on the reported frame rate, and the frame
    sequences the samplers read (seek to every `step`-th position, or read
    everything in order and keep every `f`-th frame). */
module Video {
  import opened Wrappers
  import opened Arith

  /** A decoded frame; only its identity matters to the engine. */
  datatype Frame = Frame(id: nat)

  /** What the decoder knows about one video file: whether it opens, the frame
      rate and frame count it reports, the outcome of decoding each position
      (`None` for a frame that does not decode), and after how many reads, if
      ever, the capture starts to report itself closed. */
  datatype Source = Source(
    opens: bool,
    fps: real,
    frameCount: real,
    frames: seq<Option<Frame>>,
    closesAfter: Option<nat>)

  datatype VideoError =
    | CantOpenVideoCapture  // the file cannot be opened
    | InvalidVideoCapture   // frame rate asked of a closed capture
    | InvalidFrameRate      // reported frame rate <= 0
    | VideoCaptureClosed    // capture reported closed in the middle of reading
    | ZeroRangeStep         // `range(0, total, 0)`: a frame rate that rounds to 0
    | ZeroDivision          // `count % 0`: a frame rate that rounds or truncates to 0

  /** Whether the capture reports itself opened after `done` reads. */
  predicate OpenAfter(src: Source, done: nat)
  {
    src.opens && (src.closesAfter.None? || done < src.closesAfter.value)
  }

  /** Outcome of reading position `pos` after `done` earlier reads. */
  function ReadAt(src: Source, pos: nat, done: nat): Option<Frame>
  {
    if OpenAfter(src, done) && pos < |src.frames| then src.frames[pos] else None
  }

  /** `cv2.VideoCapture`: a read position, a read counter and a release flag. */
  class Capture {
    const source: Source
    var position: nat
    var done: nat
    var released: bool

    constructor (src: Source)
      ensures source == src && position == 0 && done == 0 && !released
    {
      source := src;
      position := 0;
      done := 0;
      released := false;
    }

    /** `isOpened()` */
    predicate IsOpened()
      reads this
    {
      !released && OpenAfter(source, done)
    }

    /** `set(CAP_PROP_POS_FRAMES, i)` */
    method SetPosition(i: nat)
      modifies this
      ensures position == i && done == old(done) && released == old(released)
    {
      position := i;
    }

    /** `read()`: the frame at the current position, or `None` once the capture
        is released or closed, past the end, or on a frame that does not decode. */
    method Read() returns (r: Option<Frame>)
      modifies this
      ensures r == (if old(released) then None else ReadAt(source, old(position), old(done)))
      ensures position == old(position) + 1 && done == old(done) + 1 && released == old(released)
    {
      r := if released then None else ReadAt(source, position, done);
      position := position + 1;
      done := done + 1;
    }

    /** `release()` */
    method Release()
      modifies this
      ensures released && position == old(position) && done == old(done)
    {
      released := true;
    }
  }

  /** Python's `round` on a float: nearest integer, halves to the even one. */
  function RoundHalfEven(x: real): int
  {
    var f := x.Floor;
    var d := x - f as real;
    if d < 0.5 then f
    else if d > 0.5 then f + 1
    else if f % 2 == 0 then f
    else f + 1
  }

  /** `round` gives a nearest integer, and at an exact half the even neighbour. */
  lemma RoundHalfEvenNearest(x: real)
    ensures -0.5 <= RoundHalfEven(x) as real - x <= 0.5
    ensures (RoundHalfEven(x) as real - x == 0.5 || x - RoundHalfEven(x) as real == 0.5) ==> RoundHalfEven(x) % 2 == 0
  {
    var f := x.Floor;
    assert f as real <= x < f as real + 1.0;
  }

  /** Any integer strictly nearer to `x` than one half is what `round` gives. */
  lemma RoundHalfEvenUnique(x: real, n: int)
    requires -0.5 < n as real - x < 0.5
    ensures RoundHalfEven(x) == n
  {
    RoundHalfEvenNearest(x);
  }

  /** The cases a frame rate meets: 29.97 fps samples every 30 frames, and
      rates of 0.5 and below round to 0. */
  lemma RoundHalfEvenExamples()
    ensures RoundHalfEven(29.97) == 30
    ensures RoundHalfEven(2.5) == 2 && RoundHalfEven(3.5) == 4
    ensures RoundHalfEven(0.5) == 0 && RoundHalfEven(0.4) == 0
  {
    RoundHalfEvenNearest(29.97);
    RoundHalfEvenNearest(0.4);
    assert 2.5.Floor == 2 && 3.5.Floor == 3 && 0.5.Floor == 0;
  }

  /** Python's `int` on a float: truncation toward zero. */
  function Trunc(x: real): int
  {
    if x >= 0.0 then x.Floor else -((-x).Floor)
  }

  /** `int` never moves away from zero and drops less than one. */
  lemma TruncTowardZero(x: real)
    ensures x >= 0.0 ==> 0.0 <= Trunc(x) as real <= x < Trunc(x) as real + 1.0
    ensures x < 0.0 ==> Trunc(x) as real - 1.0 < x <= Trunc(x) as real <= 0.0
  {
  }

  /** `_get_video_frame_rate`: a closed capture or a non-positive rate is an
      error, otherwise the rate is rounded half to even. */
  function FrameRate(cap: Capture): (r: Result<int, VideoError>)
    reads cap
    ensures r.Err? <==> !cap.IsOpened() || cap.source.fps <= 0.0
    ensures r.Err? ==> r.error == (if !cap.IsOpened() then InvalidVideoCapture else InvalidFrameRate)
    ensures r.Ok? ==> r.value >= 0 && -0.5 <= r.value as real - cap.source.fps <= 0.5
    ensures r.Ok? ==> r.value == RoundHalfEven(cap.source.fps)
  {
    if !cap.IsOpened() then Err(InvalidVideoCapture)
    else if cap.source.fps <= 0.0 then Err(InvalidFrameRate)
    else
      RoundHalfEvenNearest(cap.source.fps);
      Ok(RoundHalfEven(cap.source.fps))
  }

  /** Entering `with _video_capture(path)`: a capture that does not open is
      released and reported; otherwise it is handed over unreleased. */
  method OpenVideoCapture(src: Source) returns (cap: Capture, err: Option<VideoError>)
    ensures fresh(cap) && cap.source == src && cap.position == 0 && cap.done == 0
    ensures err.Some? <==> !OpenAfter(src, 0)
    ensures err.Some? ==> err.value == CantOpenVideoCapture && cap.released
    ensures err.None? ==> !cap.released
  {
    cap := new Capture(src);
    if !cap.IsOpened() {
      cap.Release();
      return cap, Some(CantOpenVideoCapture);
    }
    err := None;
  }

  /** The positions `range(0, total, step)` visits. */
  function Positions(step: nat, total: int): seq<nat>
    requires step >= 1
  {
    PositionsFrom(0, step, total)
  }

  /** The positions `range(from, total, step)` visits. */
  function PositionsFrom(from: nat, step: nat, total: int): seq<nat>
    requires step >= 1
    decreases total - from
  {
    if from >= total then [] else [from] + PositionsFrom(from + step, step, total)
  }

  lemma {:induction false} PositionsFromExact(from: nat, step: nat, total: int)
    requires step >= 1
    ensures forall k :: 0 <= k < |PositionsFrom(from, step, total)| ==>
              PositionsFrom(from, step, total)[k] == from + k * step < total
    ensures forall k: nat :: from + k * step < total ==> k < |PositionsFrom(from, step, total)|
    decreases total - from
  {
    var ps := PositionsFrom(from, step, total);
    if from < total {
      var rest := PositionsFrom(from + step, step, total);
      PositionsFromExact(from + step, step, total);
      forall k | 0 < k < |ps|
        ensures ps[k] == from + k * step < total
      {
        assert ps[k] == rest[k - 1];
        assert from + step + (k - 1) * step == from + k * step;
      }
      forall k: nat | from + k * step < total && k > 0
        ensures k < |ps|
      {
        assert from + step + (k - 1) * step == from + k * step;
      }
    }
  }

  /** The positions are exactly the multiples of `step` below `total`, in
      increasing order; there are `ceil(total / step)` of them. */
  lemma PositionsExact(step: nat, total: int)
    requires step >= 1
    ensures forall k :: 0 <= k < |Positions(step, total)| ==> Positions(step, total)[k] == k * step < total
    ensures forall k: nat :: k * step < total ==> k < |Positions(step, total)|
    ensures |Positions(step, total)| == if total <= 0 then 0 else CeilDiv(total, step)
  {
    var ps := Positions(step, total);
    PositionsFromExact(0, step, total);
    if total > 0 {
      BelowIffLess(total, step, |ps|);
      assert 0 * step < total;
      BelowIffLess(total, step, |ps| - 1);
    }
  }

  /** The seek sampler's reads: one per position, in order, up to (not
      including) the first read that fails. */
  function SeekReads(src: Source, ps: seq<nat>, done: nat): (r: seq<Frame>)
    ensures |r| <= |ps|
  {
    if ps == [] then []
    else match ReadAt(src, ps[0], done)
      case None => []
      case Some(f) => [f] + SeekReads(src, ps[1..], done + 1)
  }

  /** The read at position `ps[k]` after `k` reads, seen from the whole run:
      it yields frame `k` of the seek reads, or fails exactly when they stop at `k`. */
  lemma SeekReadAt(src: Source, ps: seq<nat>, k: nat)
    requires k < |ps| && k <= |SeekReads(src, ps, 0)|
    ensures ReadAt(src, ps[k], k) ==
              if k < |SeekReads(src, ps, 0)| then Some(SeekReads(src, ps, 0)[k]) else None
  {
    SeekReadsPrefix(src, ps, 0);
  }

  /** Frame `j` of the seek reads is the read at position `ps[j]`, and when
      fewer frames than positions come back, the next read failed. */
  lemma {:induction false} SeekReadsPrefix(src: Source, ps: seq<nat>, done: nat)
    ensures forall j :: 0 <= j < |SeekReads(src, ps, done)| ==>
              ReadAt(src, ps[j], done + j) == Some(SeekReads(src, ps, done)[j])
    ensures |SeekReads(src, ps, done)| < |ps| ==>
              ReadAt(src, ps[|SeekReads(src, ps, done)|], done + |SeekReads(src, ps, done)|).None?
  {
    if ps != [] && ReadAt(src, ps[0], done).Some? {
      SeekReadsPrefix(src, ps[1..], done + 1);
    }
  }

  /** The sequential reads from position `done` on: frames in decoding order
      until the capture reports closed, the stream ends or a frame fails. */
  function StreamFrames(src: Source, done: nat): (r: seq<Frame>)
    ensures done + |r| <= |src.frames| || r == []
    decreases |src.frames| - done
  {
    if done >= |src.frames| || !OpenAfter(src, done) || src.frames[done].None? then []
    else [src.frames[done].value] + StreamFrames(src, done + 1)
  }

  /** Frame `j` is what reading position `done + j` gives when it is the
      `(done + j)`-th read; after the last frame the next read fails (the
      capture is closed, the stream ended or the frame does not decode). */
  lemma {:induction false} StreamFramesPrefix(src: Source, done: nat)
    ensures forall j :: 0 <= j < |StreamFrames(src, done)| ==>
              ReadAt(src, done + j, done + j) == Some(StreamFrames(src, done)[j])
    ensures ReadAt(src, done + |StreamFrames(src, done)|, done + |StreamFrames(src, done)|).None?
    decreases |src.frames| - done
  {
    if !(done >= |src.frames| || !OpenAfter(src, done) || src.frames[done].None?) {
      StreamFramesPrefix(src, done + 1);
      var rest := StreamFrames(src, done + 1);
      assert StreamFrames(src, done) == [src.frames[done].value] + rest;
      forall j | 0 <= j < |StreamFrames(src, done)|
        ensures ReadAt(src, done + j, done + j) == Some(StreamFrames(src, done)[j])
      {
        if j > 0 {
          assert StreamFrames(src, done)[j] == rest[j - 1];
          assert done + 1 + (j - 1) == done + j;
        }
      }
    }
  }

  /** The `j`-th sequential read seen from the whole run: it yields frame `j`
      of the stream while there is one, and fails once the stream is over. */
  lemma StreamFramesAt(src: Source, done: nat, j: nat)
    requires j <= |StreamFrames(src, done)|
    ensures j < |StreamFrames(src, done)| ==>
              OpenAfter(src, done + j) && ReadAt(src, done + j, done + j) == Some(StreamFrames(src, done)[j])
    ensures j == |StreamFrames(src, done)| ==> ReadAt(src, done + j, done + j).None?
  {
    StreamFramesPrefix(src, done);
    if j < |StreamFrames(src, done)| {
      assert ReadAt(src, done + j, done + j) == Some(StreamFrames(src, done)[j]);
    }
  }

  /** Whether sequential reading from position `done` stops because the
      capture reports closed rather than because a read fails. */
  predicate StreamClosedEarly(src: Source, done: nat)
  {
    !OpenAfter(src, done + |StreamFrames(src, done)|)
  }

  /** The items whose 1-based count is a multiple of `f`, in order. */
  function EveryNth<T>(s: seq<T>, f: nat): seq<T>
    requires f >= 1
  {
    if s == [] then []
    else EveryNth(s[..|s| - 1], f) + (if |s| % f == 0 then [s[|s| - 1]] else [])
  }

  /** Division by `f` is determined by any quotient/remainder split. */
  lemma DivUnique(n: nat, f: nat, a: nat, b: nat)
    requires f >= 1 && n == a * f + b && b < f
    ensures n / f == a && n % f == b
  {
    var q, r := n / f, n % f;
    assert n == q * f + r && 0 <= r < f;
    if q > a {
      MulLe(1, q - a, f);
    } else if q < a {
      MulLe(1, a - q, f);
    }
  }

  /** How `n / f` moves when `n` grows by one. */
  lemma DivStep(n: nat, f: nat)
    requires n >= 1 && f >= 1
    ensures n % f == 0 ==> n / f == (n - 1) / f + 1 && n == (n / f) * f
    ensures n % f != 0 ==> n / f == (n - 1) / f
  {
    var q, r := (n - 1) / f, (n - 1) % f;
    DivUnique(n - 1, f, q, r);
    if r + 1 == f {
      assert n == (q + 1) * f + 0;
      DivUnique(n, f, q + 1, 0);
    } else {
      DivUnique(n, f, q, r + 1);
    }
  }

  /** `|s| / f` items are kept. */
  lemma {:induction false} EveryNthLength<T>(s: seq<T>, f: nat)
    requires f >= 1
    ensures |EveryNth(s, f)| == |s| / f
  {
    if s != [] {
      EveryNthLength(s[..|s| - 1], f);
      DivStep(|s|, f);
    }
  }

  /** Where the `j`-th multiple of `f` lies when counting up to `n`: before
      `n`, or at `n` itself when `j` is the last one. */
  lemma KeptCount(n: nat, f: nat, j: nat)
    requires n >= 1 && f >= 1 && j < n / f
    ensures j < (n - 1) / f ==> (j + 1) * f <= n - 1
    ensures j >= (n - 1) / f ==> n % f == 0 && j == (n - 1) / f && (j + 1) * f == n
  {
    DivStep(n, f);
    var q := (n - 1) / f;
    if j < q {
      MulLe(j + 1, q, f);
      assert q * f <= n - 1;
    }
  }

  /** The `j`-th kept item is the one read at count `(j + 1) * f`: exactly the
      items at counts `f, 2f, 3f, ...` are kept. */
  lemma {:induction false} EveryNthIndex<T>(s: seq<T>, f: nat, j: nat)
    requires f >= 1 && j < |s| / f
    ensures (j + 1) * f <= |s| && |EveryNth(s, f)| == |s| / f
    ensures EveryNth(s, f)[j] == s[(j + 1) * f - 1]
    decreases |s|, 1
  {
    var n := |s|;
    EveryNthLength(s, f);
    KeptCount(n, f, j);
    if j < (n - 1) / f {
      EveryNthIndexBefore(s, f, j);
    } else {
      EveryNthIndexLast(s, f, j);
    }
  }

  /** A kept item before the last one is kept among all but the last item. */
  lemma {:induction false} EveryNthIndexBefore<T>(s: seq<T>, f: nat, j: nat)
    requires f >= 1 && |s| >= 1 && j < (|s| - 1) / f && (j + 1) * f <= |s| - 1 && j < |EveryNth(s, f)|
    ensures EveryNth(s, f)[j] == s[(j + 1) * f - 1]
    decreases |s|, 0
  {
    var p := s[..|s| - 1];
    assert EveryNth(s, f) == EveryNth(p, f) + (if |s| % f == 0 then [s[|s| - 1]] else []);
    EveryNthIndex(p, f, j);
    assert p[(j + 1) * f - 1] == s[(j + 1) * f - 1];
  }

  /** The last kept item, when the count is a multiple of `f`, is the last item. */
  lemma EveryNthIndexLast<T>(s: seq<T>, f: nat, j: nat)
    requires f >= 1 && |s| >= 1 && |s| % f == 0 && j == (|s| - 1) / f && j < |EveryNth(s, f)|
    ensures EveryNth(s, f)[j] == s[|s| - 1]
  {
    var p := s[..|s| - 1];
    EveryNthLength(p, f);
    assert EveryNth(s, f) == EveryNth(p, f) + [s[|s| - 1]];
  }
}
