/** The top-frames selector of the frames evaluators service: list the
    frames of a folder, score each, take the 90th percentile of the scores
    as a threshold, sort the scored frames by descending score and save
    every frame scored strictly above the threshold, best first. */
module TopFramesSelectors {
  import opened Wrappers
  import opened Paths
  import opened Video
  import opened Percentiles
  import opened FramesEvaluator

  /** The image extensions `load_frames` accepts. */
  const FrameExtensions: seq<string> := [".jpg", ".jpeg", ".png"]

  /** The frames of some scored frames, in order. */
  function FramesOf(s: seq<ScoredFrame>): (r: seq<Frame>)
    ensures |r| == |s|
    ensures forall i :: 0 <= i < |s| ==> r[i] == s[i].frame
  {
    seq(|s|, i requires 0 <= i < |s| => s[i].frame)
  }

  // ---------------------------------------------------------------------
  // `list.sort(key=score, reverse=True)`: stable, descending by score.

  ghost predicate SortedDesc(s: seq<ScoredFrame>)
  {
    forall i, j :: 0 <= i < j < |s| ==> s[i].score >= s[j].score
  }

  /** Insert `x` before the first frame not scored above it, so that `x`,
      which came first, stays ahead of the frames that tie with it. */
  function InsertDesc(x: ScoredFrame, s: seq<ScoredFrame>): (r: seq<ScoredFrame>)
    ensures |r| == |s| + 1
    ensures multiset(r) == multiset(s) + multiset{x}
  {
    if s == [] || s[0].score <= x.score then [x] + s
    else
      assert s == [s[0]] + s[1..];
      [s[0]] + InsertDesc(x, s[1..])
  }

  lemma {:induction false} InsertDescSorted(x: ScoredFrame, s: seq<ScoredFrame>)
    requires SortedDesc(s)
    ensures SortedDesc(InsertDesc(x, s))
    ensures InsertDesc(x, s)[0] == x || (s != [] && InsertDesc(x, s)[0] == s[0])
  {
    if s != [] && s[0].score > x.score {
      InsertDescSorted(x, s[1..]);
      var t := InsertDesc(x, s[1..]);
      assert InsertDesc(x, s) == [s[0]] + t;
      assert s[0].score >= t[0].score;
      forall i, j | 0 <= i < j < |t| + 1
        ensures ([s[0]] + t)[i].score >= ([s[0]] + t)[j].score
      {
        if i > 0 {
          assert ([s[0]] + t)[i] == t[i - 1];
        } else {
          assert t[0].score >= t[j - 1].score;
        }
      }
    }
  }

  /** The order `scored_frames` has after the sort. */
  function SortDesc(s: seq<ScoredFrame>): (r: seq<ScoredFrame>)
    ensures |r| == |s|
    ensures SortedDesc(r)
    ensures multiset(r) == multiset(s)
  {
    if s == [] then []
    else
      assert s == [s[0]] + s[1..];
      InsertDescSorted(s[0], SortDesc(s[1..]));
      InsertDesc(s[0], SortDesc(s[1..]))
  }

  /** The frames scored exactly `v`, in order. */
  function WithScore(s: seq<ScoredFrame>, v: real): seq<ScoredFrame>
  {
    if s == [] then [] else (if s[0].score == v then [s[0]] else []) + WithScore(s[1..], v)
  }

  lemma {:induction false} WithScoreAppend(a: seq<ScoredFrame>, b: seq<ScoredFrame>, v: real)
    ensures WithScore(a + b, v) == WithScore(a, v) + WithScore(b, v)
  {
    if a != [] {
      assert (a + b)[1..] == a[1..] + b;
      WithScoreAppend(a[1..], b, v);
    } else {
      assert a + b == b;
    }
  }

  /** Inserting `x` puts it ahead of every frame that ties with it. */
  lemma {:induction false} InsertDescWithScore(x: ScoredFrame, s: seq<ScoredFrame>, v: real)
    ensures WithScore(InsertDesc(x, s), v) == (if x.score == v then [x] else []) + WithScore(s, v)
  {
    if s != [] && s[0].score > x.score {
      var u := InsertDesc(x, s[1..]);
      assert InsertDesc(x, s) == [s[0]] + u;
      InsertDescWithScore(x, s[1..], v);
      assert WithScore([s[0]] + u, v) == (if s[0].score == v then [s[0]] else []) + WithScore(u, v) by {
        assert ([s[0]] + u)[1..] == u;
      }
    } else {
      assert InsertDesc(x, s) == [x] + s;
      assert ([x] + s)[1..] == s;
    }
  }

  /** The sort is stable: frames with equal scores keep their input order. */
  lemma {:induction false} SortDescStable(s: seq<ScoredFrame>, v: real)
    ensures WithScore(SortDesc(s), v) == WithScore(s, v)
  {
    if s != [] {
      SortDescStable(s[1..], v);
      InsertDescWithScore(s[0], SortDesc(s[1..]), v);
    }
  }

  // ---------------------------------------------------------------------
  // The frames scored strictly above the threshold.

  /** The scored frames above `t`, in the order given. */
  function Above(s: seq<ScoredFrame>, t: real): (r: seq<ScoredFrame>)
    ensures |r| <= |s|
    ensures forall i :: 0 <= i < |r| ==> r[i].score > t
    decreases |s|
  {
    if s == [] then []
    else
      var n := |s| - 1;
      Above(s[..n], t) + (if s[n].score > t then [s[n]] else [])
  }

  /** Each occurrence of a frame above `t` is kept, every other dropped. */
  lemma {:induction false} AboveCount(s: seq<ScoredFrame>, t: real, x: ScoredFrame)
    ensures multiset(Above(s, t))[x] == if x.score > t then multiset(s)[x] else 0
    decreases |s|
  {
    if s != [] {
      var n := |s| - 1;
      AboveCount(s[..n], t, x);
      assert s == s[..n] + [s[n]];
    }
  }

  /** Filtering commutes with reordering: a permutation of the input keeps
      a permutation of the frames above the threshold. */
  lemma AbovePermutation(a: seq<ScoredFrame>, b: seq<ScoredFrame>, t: real)
    requires multiset(a) == multiset(b)
    ensures multiset(Above(a, t)) == multiset(Above(b, t))
  {
    forall x
      ensures multiset(Above(a, t))[x] == multiset(Above(b, t))[x]
    {
      AboveCount(a, t, x);
      AboveCount(b, t, x);
    }
  }

  /** Over frames sorted by descending score, the frames above `t` are a
      prefix: the best ones, and every frame after them is at most `t`. */
  lemma {:induction false} AboveOfSortedIsPrefix(s: seq<ScoredFrame>, t: real)
    requires SortedDesc(s)
    ensures |Above(s, t)| <= |s| && Above(s, t) == s[..|Above(s, t)|]
    ensures forall i :: |Above(s, t)| <= i < |s| ==> s[i].score <= t
    decreases |s|
  {
    if s != [] {
      var n := |s| - 1;
      assert SortedDesc(s[..n]);
      AboveOfSortedIsPrefix(s[..n], t);
      var k := |Above(s[..n], t)|;
      if s[n].score > t {
        assert k == n;
        assert Above(s, t) == s[..n] + [s[n]] == s;
      } else {
        assert s[..n][..k] == s[..k];
        assert Above(s, t) == Above(s[..n], t);
        forall i | k <= i < |s|
          ensures s[i].score <= t
        {
          if i < n {
            assert s[..n][i] == s[i];
          }
        }
      }
    }
  }

  /** Among the frames above `t`, those that tie keep their input order. */
  lemma {:induction false} AboveWithScore(s: seq<ScoredFrame>, t: real, v: real)
    ensures WithScore(Above(s, t), v) == if v > t then WithScore(s, v) else []
    decreases |s|
  {
    if s != [] {
      var n := |s| - 1;
      AboveWithScore(s[..n], t, v);
      var last := if s[n].score > t then [s[n]] else [];
      WithScoreAppend(Above(s[..n], t), last, v);
      assert s == s[..n] + [s[n]];
      WithScoreAppend(s[..n], [s[n]], v);
      assert WithScore([s[n]], v) == if s[n].score == v then [s[n]] else [];
      assert WithScore(last, v) == if s[n].score > t && s[n].score == v then [s[n]] else [];
    }
  }

  /** One more frame is saved exactly when it is above the threshold. */
  lemma AboveStep(s: seq<ScoredFrame>, i: nat, t: real)
    requires i < |s|
    ensures FramesOf(Above(s[..i + 1], t)) ==
            FramesOf(Above(s[..i], t)) + (if s[i].score > t then [s[i].frame] else [])
  {
    assert s[..i + 1][..i] == s[..i];
    var a := Above(s[..i], t);
    if s[i].score > t {
      assert FramesOf(a + [s[i]]) == FramesOf(a) + [s[i].frame];
    }
  }

  // ---------------------------------------------------------------------
  // `save_top_frames` as a value.

  /** The frames `save_top_frames` saves, best first: the threshold is the
      `thresholdPercentile`-th percentile of all the scores, taken before
      the sort; numpy raises on no scores and on a percent outside 0..100. */
  function TopFrames(scored: seq<ScoredFrame>, thresholdPercentile: int): (r: Result<seq<ScoredFrame>, FramesError>)
    ensures r.Err? <==> scored == [] || thresholdPercentile < 0 || thresholdPercentile > 100
    ensures r.Err? ==> r.error == PercentileFailed(Percentile(ScoresOf(scored), thresholdPercentile as real).error)
  {
    PercentileRange(ScoresOf(scored), thresholdPercentile as real);
    match Percentile(ScoresOf(scored), thresholdPercentile as real)
    case Err(e) => Err(PercentileFailed(e))
    case Ok(t) => Ok(Above(SortDesc(scored), t))
  }

  /** With threshold `t` the saved frames are those of the sorted list above `t`. */
  lemma TopFramesValue(scored: seq<ScoredFrame>, thresholdPercentile: int, t: real)
    requires Percentile(ScoresOf(scored), thresholdPercentile as real) == Ok(t)
    ensures TopFrames(scored, thresholdPercentile) == Ok(Above(SortDesc(scored), t))
  {
  }

  /** Sorting first saves the same frames, each as often, as filtering the
      unsorted list would. */
  lemma SortedAbovePermutation(scored: seq<ScoredFrame>, t: real)
    ensures multiset(Above(SortDesc(scored), t)) == multiset(Above(scored, t))
  {
    AbovePermutation(SortDesc(scored), scored, t);
  }

  /** A frame is saved iff it was scored and its score is above `t`. */
  lemma SortedAboveMembers(scored: seq<ScoredFrame>, t: real, x: ScoredFrame)
    ensures x in Above(SortDesc(scored), t) <==> x in scored && x.score > t
  {
    var top := Above(SortDesc(scored), t);
    SortedAbovePermutation(scored, t);
    AboveCount(scored, t, x);
    assert x in top <==> multiset(top)[x] > 0;
    assert x in Above(scored, t) <==> multiset(Above(scored, t))[x] > 0;
    assert x in scored <==> multiset(scored)[x] > 0;
  }

  /** Saved frames that tie are saved in their input order. */
  lemma SortedAboveTies(scored: seq<ScoredFrame>, t: real, v: real)
    ensures WithScore(Above(SortDesc(scored), t), v) == WithScore(Above(scored, t), v)
  {
    AboveWithScore(SortDesc(scored), t, v);
    AboveWithScore(scored, t, v);
    SortDescStable(scored, v);
  }

  /** What `save_top_frames` saves at threshold `t`: exactly the scored
      frames strictly above `t`, each as often as it occurs; best first; the
      leading run of the sorted list, every later frame being at most `t`;
      and frames that tie keep their input order. */
  lemma TopFramesSaved(scored: seq<ScoredFrame>, thresholdPercentile: int, t: real, top: seq<ScoredFrame>)
    requires Percentile(ScoresOf(scored), thresholdPercentile as real) == Ok(t)
    requires TopFrames(scored, thresholdPercentile) == Ok(top)
    ensures multiset(top) == multiset(Above(scored, t))
    ensures forall x :: x in top <==> x in scored && x.score > t
    ensures SortedDesc(top)
    ensures |top| <= |scored| && top == SortDesc(scored)[..|top|]
    ensures forall i :: |top| <= i < |scored| ==> SortDesc(scored)[i].score <= t
    ensures forall v :: WithScore(top, v) == WithScore(Above(scored, t), v)
  {
    TopFramesValue(scored, thresholdPercentile, t);
    SortedAbovePermutation(scored, t);
    SortedAboveAllMembers(scored, t);
    SortedAboveLeads(scored, t);
    SortedAboveAllTies(scored, t);
  }

  lemma SortedAboveAllMembers(scored: seq<ScoredFrame>, t: real)
    ensures forall x :: x in Above(SortDesc(scored), t) <==> x in scored && x.score > t
  {
    forall x
      ensures x in Above(SortDesc(scored), t) <==> x in scored && x.score > t
    {
      SortedAboveMembers(scored, t, x);
    }
  }

  lemma SortedAboveAllTies(scored: seq<ScoredFrame>, t: real)
    ensures forall v :: WithScore(Above(SortDesc(scored), t), v) == WithScore(Above(scored, t), v)
  {
    forall v
      ensures WithScore(Above(SortDesc(scored), t), v) == WithScore(Above(scored, t), v)
    {
      SortedAboveTies(scored, t, v);
    }
  }

  /** The saved frames lead the sorted list, best first, and every frame
      after them is at most `t`. */
  lemma SortedAboveLeads(scored: seq<ScoredFrame>, t: real)
    ensures var top := Above(SortDesc(scored), t);
            SortedDesc(top) && |top| <= |scored| && top == SortDesc(scored)[..|top|] &&
            (forall i :: |top| <= i < |scored| ==> SortDesc(scored)[i].score <= t)
  {
    var sorted := SortDesc(scored);
    var top := Above(sorted, t);
    AboveOfSortedIsPrefix(sorted, t);
    assert forall i :: 0 <= i < |top| ==> top[i] == sorted[i];
  }

  /** Frames that all score the same are never saved: the threshold is
      that score and nothing is strictly above it. A single frame is the
      smallest such case. */
  lemma EqualScoresSaveNothing(scored: seq<ScoredFrame>, thresholdPercentile: int)
    requires scored != [] && 0 <= thresholdPercentile <= 100
    requires forall i :: 0 <= i < |scored| ==> scored[i].score == scored[0].score
    ensures TopFrames(scored, thresholdPercentile) == Ok([])
  {
    var xs := ScoresOf(scored);
    PercentileRange(xs, thresholdPercentile as real);
    var t := Percentile(xs, thresholdPercentile as real).value;
    var i :| 0 <= i < |xs| && xs[i] <= t;
    NoneAbove(scored, t);
    SortedAbovePermutation(scored, t);
    assert |Above(SortDesc(scored), t)| == |multiset(Above(SortDesc(scored), t))| == 0;
    TopFramesValue(scored, thresholdPercentile, t);
  }

  /** With at least two frames and a percentile below 100, a frame scored
      strictly higher than every other is saved, and saved first. */
  lemma StrictBestSavedFirst(scored: seq<ScoredFrame>, thresholdPercentile: int, m: nat)
    requires |scored| >= 2 && 0 <= thresholdPercentile < 100 && m < |scored|
    requires forall i :: 0 <= i < |scored| && i != m ==> scored[i].score < scored[m].score
    ensures TopFrames(scored, thresholdPercentile).Ok?
    ensures TopFrames(scored, thresholdPercentile).value != []
    ensures TopFrames(scored, thresholdPercentile).value[0] == scored[m]
  {
    var xs := ScoresOf(scored);
    PercentileBelowStrictMax(xs, thresholdPercentile as real, m);
    var t := Percentile(xs, thresholdPercentile as real).value;
    var top := Above(SortDesc(scored), t);
    TopFramesValue(scored, thresholdPercentile, t);
    SortedAboveMembers(scored, t, scored[m]);
    SortedAboveLeads(scored, t);
    var k :| 0 <= k < |top| && top[k] == scored[m];
    assert top[0].score >= scored[m].score;
    SortedAboveMembers(scored, t, top[0]);
    var i :| 0 <= i < |scored| && scored[i] == top[0];
    assert i == m;
  }

  /** No frame above `t`, nothing kept. */
  lemma {:induction false} NoneAbove(s: seq<ScoredFrame>, t: real)
    requires forall i :: 0 <= i < |s| ==> s[i].score <= t
    ensures Above(s, t) == []
    decreases |s|
  {
    if s != [] {
      NoneAbove(s[..|s| - 1], t);
    }
  }

  /** The log once the first `i` frames of `sorted` were looked at: the
      writes of those among them above `t`, after `base`. */
  predicate SavedAbove(folder: string, clock: nat -> nat, base: seq<DiskEffect>, log: seq<DiskEffect>,
                       sorted: seq<ScoredFrame>, i: nat, t: real)
  {
    i <= |sorted| && log == base + Writes(folder, FramesOf(Above(sorted[..i], t)), clock, |base|)
  }

  /** Looking at one more frame, and saving it when it is above `t`, keeps
      that state. */
  lemma SavedAboveStep(folder: string, clock: nat -> nat, base: seq<DiskEffect>, log: seq<DiskEffect>,
                       sorted: seq<ScoredFrame>, i: nat, t: real, log2: seq<DiskEffect>)
    requires SavedAbove(folder, clock, base, log, sorted, i, t) && i < |sorted|
    requires if sorted[i].score > t then log2 == log + [Wrote(FramePath(folder, clock(|log|), "jpg"), sorted[i].frame)]
             else log2 == log
    ensures SavedAbove(folder, clock, base, log2, sorted, i + 1, t)
  {
    AboveStep(sorted, i, t);
    var saved := FramesOf(Above(sorted[..i], t));
    if sorted[i].score > t {
      LogAppendWrite(folder, clock, base, log, saved, sorted[i].frame);
    } else {
      assert saved + [] == saved;
    }
  }

  // ---------------------------------------------------------------------
  // `score_all_frames` as a value.

  /** One `(frame, score)` pair per path, in path order; `cv2.imread`
      giving nothing makes the scorer raise at that path. */
  function ScoreAll(paths: seq<string>, images: string -> Option<Frame>, score: Frame -> real): Result<seq<ScoredFrame>, FramesError>
    decreases |paths|
  {
    if paths == [] then Ok([])
    else
      var n := |paths| - 1;
      match ScoreAll(paths[..n], images, score)
      case Err(e) => Err(e)
      case Ok(done) =>
        match images(paths[n])
        case None => Err(UnreadableFrame(paths[n]))
        case Some(f) => Ok(done + [ScoredFrame(f, score(f))])
  }

  /** Every path readable: one scored frame per path, in order. */
  lemma {:induction false} ScoreAllOk(paths: seq<string>, images: string -> Option<Frame>, score: Frame -> real)
    ensures ScoreAll(paths, images, score).Ok? <==> forall i :: 0 <= i < |paths| ==> images(paths[i]).Some?
    ensures ScoreAll(paths, images, score).Ok? ==>
              var r := ScoreAll(paths, images, score).value;
              |r| == |paths| &&
              forall i :: 0 <= i < |paths| ==> r[i] == ScoredFrame(images(paths[i]).value, score(images(paths[i]).value))
    decreases |paths|
  {
    if paths != [] {
      var n := |paths| - 1;
      ScoreAllOk(paths[..n], images, score);
      assert forall i :: 0 <= i < n ==> paths[..n][i] == paths[i];
    }
  }

  /** The error names the first unreadable path. */
  lemma {:induction false} ScoreAllFirstError(paths: seq<string>, images: string -> Option<Frame>, score: Frame -> real)
    ensures ScoreAll(paths, images, score).Err? ==>
              exists k :: 0 <= k < |paths| && images(paths[k]).None? &&
                (forall j :: 0 <= j < k ==> images(paths[j]).Some?) &&
                ScoreAll(paths, images, score).error == UnreadableFrame(paths[k])
    decreases |paths|
  {
    if paths != [] {
      var n := |paths| - 1;
      ScoreAllFirstError(paths[..n], images, score);
      if ScoreAll(paths[..n], images, score).Err? {
        var k :| 0 <= k < n && images(paths[..n][k]).None? &&
                 (forall j :: 0 <= j < k ==> images(paths[..n][j]).Some?) &&
                 ScoreAll(paths[..n], images, score).error == UnreadableFrame(paths[..n][k]);
        assert paths[..n][k] == paths[k];
        assert forall j :: 0 <= j < k ==> paths[..n][j] == paths[j];
      } else {
        ScoreAllOk(paths[..n], images, score);
        assert forall j :: 0 <= j < n ==> paths[..n][j] == paths[j];
      }
    }
  }

  /** Once a prefix fails, the whole run fails the same way. */
  lemma {:induction false} ScoreAllErrPrefix(paths: seq<string>, images: string -> Option<Frame>, score: Frame -> real, i: nat)
    requires i <= |paths| && ScoreAll(paths[..i], images, score).Err?
    ensures ScoreAll(paths, images, score) == ScoreAll(paths[..i], images, score)
    decreases |paths| - i
  {
    if i < |paths| {
      var n := |paths| - 1;
      assert paths[..i + 1][..i] == paths[..i];
      ScoreAllErrPrefix(paths, images, score, i + 1);
    } else {
      assert paths[..i] == paths;
    }
  }

  // ---------------------------------------------------------------------
  // The objects.

  /** The Python list of `(frame, score)` pairs that `save_top_frames`
      sorts in place, so the caller sees the new order. */
  class ScoredFrameList {
    var items: seq<ScoredFrame>

    constructor(items: seq<ScoredFrame>)
      ensures this.items == items
    {
      this.items := items;
    }
  }

  class TopFramesSelector {
    const outputFolder: string
    const score: Frame -> real
    const disk: Disk

    /** `Evaluator.__init__`: the output folder is created when missing. */
    constructor(outputFolder: string, score: Frame -> real, disk: Disk)
      modifies disk
      ensures this.outputFolder == outputFolder && this.score == score && this.disk == disk
      ensures disk.Exists(outputFolder)
      ensures old(disk.Exists(outputFolder)) ==> disk.dirs == old(disk.dirs) && disk.log == old(disk.log)
      ensures !old(disk.Exists(outputFolder)) ==>
                disk.dirs == old(disk.dirs)[outputFolder := []] && disk.log == old(disk.log) + [MadeDirs(outputFolder)]
    {
      this.outputFolder := outputFolder;
      this.score := score;
      this.disk := disk;
      new;
      disk.CheckFolderExists(outputFolder);
    }

    /** `load_frames`: the `*ext` files of the folder, for `.jpg`, `.jpeg`
        or `.png` only, and only when the folder is a directory. */
    function LoadFrames(folder: string, ext: string): (r: Result<seq<string>, FramesError>)
      reads disk
      ensures r.Err? <==> (ext != ".jpg" && ext != ".jpeg" && ext != ".png") || folder !in disk.dirs
      ensures r.Ok? ==> forall p :: p in r.value <==>
                exists n :: n in disk.dirs[folder] && GlobStarMatch(n, ext) && p == Join(folder, n)
    {
      disk.GetFilesWithSpecificExtensionFromFolder(folder, ext, FrameExtensions)
    }

    /** `score_all_frames`: read and score each path in turn. */
    method ScoreAllFrames(paths: seq<string>) returns (r: Result<seq<ScoredFrame>, FramesError>)
      ensures r == ScoreAll(paths, disk.images, score)
    {
      var scored: seq<ScoredFrame> := [];
      var i := 0;
      while i < |paths|
        invariant 0 <= i <= |paths|
        invariant ScoreAll(paths[..i], disk.images, score) == Ok(scored)
      {
        assert paths[..i + 1][..i] == paths[..i];
        var image := disk.images(paths[i]);
        if image.None? {
          ScoreAllErrPrefix(paths, disk.images, score, i + 1);
          return Err(UnreadableFrame(paths[i]));
        }
        var frameScore := score(image.value);
        scored := scored + [ScoredFrame(image.value, frameScore)];
        i := i + 1;
      }
      assert paths[..i] == paths;
      return Ok(scored);
    }

    /** `save_top_frames`: the threshold from the unsorted scores, then the
        caller's list sorted best first, then every frame above the
        threshold saved in that order. */
    method SaveTopFrames(scoredFrames: ScoredFrameList, thresholdPercentile: int) returns (err: Option<FramesError>)
      modifies scoredFrames, disk
      ensures disk.dirs == old(disk.dirs)
      ensures match TopFrames(old(scoredFrames.items), thresholdPercentile)
              case Err(e) => err == Some(e) && scoredFrames.items == old(scoredFrames.items) && disk.log == old(disk.log)
              case Ok(top) =>
                err == None && scoredFrames.items == SortDesc(old(scoredFrames.items)) &&
                disk.log == old(disk.log) + Writes(outputFolder, FramesOf(top), disk.clock, |old(disk.log)|)
    {
      var scores := ScoresOf(scoredFrames.items);
      var threshold := Percentile(scores, thresholdPercentile as real);
      if threshold.Err? {
        return Some(PercentileFailed(threshold.error));
      }
      var t := threshold.value;
      scoredFrames.items := SortDesc(scoredFrames.items);
      ghost var sorted := scoredFrames.items;
      ghost var base := disk.log;
      var i := 0;
      while i < |scoredFrames.items|
        invariant 0 <= i <= |sorted| && scoredFrames.items == sorted && disk.dirs == old(disk.dirs)
        invariant SavedAbove(outputFolder, disk.clock, base, disk.log, sorted, i, t)
      {
        var x := scoredFrames.items[i];
        ghost var log := disk.log;
        if x.score > t {
          var _ := disk.SaveNdarrayFrame(outputFolder, x.frame, "jpg");
        }
        SavedAboveStep(outputFolder, disk.clock, base, log, sorted, i, t, disk.log);
        i := i + 1;
      }
      assert sorted[..i] == sorted;
      return None;
    }

    /** `process`: load the `.jpg` frames, score them all, save the top
        ones at the 90th percentile; the first step that raises ends it. */
    method Process(inputFolder: string) returns (err: Option<FramesError>)
      modifies disk
      ensures disk.dirs == old(disk.dirs)
      ensures var loaded := old(LoadFrames(inputFolder, ".jpg"));
              if loaded.Err? then err == Some(loaded.error) && disk.log == old(disk.log)
              else match ScoreAll(loaded.value, disk.images, score)
                case Err(e) => err == Some(e) && disk.log == old(disk.log)
                case Ok(scored) =>
                  match TopFrames(scored, 90)
                  case Err(e) => err == Some(e) && disk.log == old(disk.log)
                  case Ok(top) => err == None && disk.log == old(disk.log) + Writes(outputFolder, FramesOf(top), disk.clock, |old(disk.log)|)
    {
      var framePaths := LoadFrames(inputFolder, ".jpg");
      if framePaths.Err? {
        return Some(framePaths.error);
      }
      var scored := ScoreAllFrames(framePaths.value);
      if scored.Err? {
        return Some(scored.error);
      }
      var scoredFrames := new ScoredFrameList(scored.value);
      err := SaveTopFrames(scoredFrames, 90);
    }
  }

  // ---------------------------------------------------------------------
  // Two frames scored 10 and 1: the 90th percentile is 1 + 0.9 * 9 = 9.1,
  // so only the frame scored 10 is saved.

  lemma TwoFramesExample(a: Frame, b: Frame)
    ensures Percentile([10.0, 1.0], 90.0) == Ok(9.1)
    ensures TopFrames([ScoredFrame(a, 10.0), ScoredFrame(b, 1.0)], 90) == Ok([ScoredFrame(a, 10.0)])
  {
    var s := [ScoredFrame(a, 10.0), ScoredFrame(b, 1.0)];
    assert ScoresOf(s) == [10.0, 1.0];
    ExampleSortAsc();
    assert Rank(2, 90.0) == 0.9;
    assert (0.9).Floor == 0;
    ExampleSortDesc(s);
    ExampleAbove(s);
  }

  lemma ExampleSortAsc()
    ensures SortAsc([10.0, 1.0]) == [1.0, 10.0]
  {
    var s := [10.0, 1.0];
    assert s[1..] == [1.0];
    assert SortAsc([1.0]) == [1.0] by {
      assert [1.0][1..] == [];
    }
  }

  lemma ExampleSortDesc(s: seq<ScoredFrame>)
    requires |s| == 2 && s[0].score == 10.0 && s[1].score == 1.0
    ensures SortDesc(s) == s
  {
    assert s[1..][1..] == [];
    assert SortDesc(s[1..]) == [s[1]];
  }

  lemma ExampleAbove(s: seq<ScoredFrame>)
    requires |s| == 2 && s[0].score == 10.0 && s[1].score == 1.0
    ensures Above(s, 9.1) == [s[0]]
  {
    assert s[..1][..0] == [];
  }
}
