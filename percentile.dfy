/** numpy's default percentile (the "linear" method, Hyndman and Fan type 7) over
    exact rational scores, and the strict-threshold filter every top-percent
    policy applies with it. */
module Percentiles {
  import opened Wrappers

  datatype PercentileError =
    | EmptyScores        // numpy cannot index into an empty array
    | PercentOutOfRange  // numpy: "Percentiles must be in the range [0, 100]"

  ghost predicate Sorted(s: seq<real>)
  {
    forall i, j :: 0 <= i < j < |s| ==> s[i] <= s[j]
  }

  function Insert(x: real, s: seq<real>): (r: seq<real>)
    ensures |r| == |s| + 1
    ensures multiset(r) == multiset(s) + multiset{x}
  {
    if s == [] || x <= s[0] then [x] + s
    else
      assert s == [s[0]] + s[1..];
      [s[0]] + Insert(x, s[1..])
  }

  lemma {:induction false} InsertSorted(x: real, s: seq<real>)
    requires Sorted(s)
    ensures Sorted(Insert(x, s))
    ensures Insert(x, s)[0] == x || (s != [] && Insert(x, s)[0] == s[0])
  {
    if s != [] && x > s[0] {
      InsertSorted(x, s[1..]);
      var t := Insert(x, s[1..]);
      assert Insert(x, s) == [s[0]] + t;
      assert s[0] <= t[0];
      forall i, j | 0 <= i < j < |t| + 1
        ensures ([s[0]] + t)[i] <= ([s[0]] + t)[j]
      {
        if i > 0 {
          assert ([s[0]] + t)[i] == t[i - 1];
        } else {
          assert t[0] <= t[j - 1];
        }
      }
    }
  }

  /** The ascending copy numpy sorts before interpolating. */
  function SortAsc(s: seq<real>): (r: seq<real>)
    ensures |r| == |s|
    ensures Sorted(r)
    ensures multiset(r) == multiset(s)
  {
    if s == [] then []
    else
      assert s == [s[0]] + s[1..];
      InsertSorted(s[0], SortAsc(s[1..]));
      Insert(s[0], SortAsc(s[1..]))
  }

  /** Linear interpolation at fractional rank `h` of a sorted sample. */
  function Interp(s: seq<real>, h: real): real
    requires |s| >= 1 && 0.0 <= h <= (|s| - 1) as real
  {
    var lo := h.Floor;
    var hi := if lo + 1 < |s| then lo + 1 else lo;
    s[lo] + (h - lo as real) * (s[hi] - s[lo])
  }

  /** `np.percentile(xs, p)` with the default method. */
  function Percentile(xs: seq<real>, p: real): Result<real, PercentileError>
  {
    if |xs| == 0 then Err(EmptyScores)
    else if p < 0.0 || p > 100.0 then Err(PercentOutOfRange)
    else Ok(Interp(SortAsc(xs), Rank(|xs|, p)))
  }

  /** numpy's fractional rank `(n - 1) * p / 100` of the p-th percentile. */
  function Rank(n: nat, p: real): (h: real)
    requires n >= 1 && 0.0 <= p <= 100.0
    ensures 0.0 <= h <= (n - 1) as real
  {
    RankBounds(n, p);
    (n - 1) as real * p / 100.0
  }

  lemma RankBounds(n: nat, p: real)
    requires n >= 1 && 0.0 <= p <= 100.0
    ensures 0.0 <= (n - 1) as real * p / 100.0 <= (n - 1) as real
  {
    var m := (n - 1) as real;
    MulMono(0.0, p, m);
    MulMono(p, 100.0, m);
  }

  lemma MulMono(a: real, b: real, d: real)
    requires a <= b && d >= 0.0
    ensures a * d <= b * d
  {
    assert b * d - a * d == (b - a) * d;
  }

  /** The interpolated value lies between the two neighbouring order statistics. */
  lemma InterpBetween(s: seq<real>, h: real)
    requires |s| >= 1 && 0.0 <= h <= (|s| - 1) as real && Sorted(s)
    ensures s[h.Floor] <= Interp(s, h)
    ensures h.Floor + 1 < |s| ==> Interp(s, h) <= s[h.Floor + 1]
    ensures h.Floor + 1 >= |s| ==> Interp(s, h) == s[h.Floor]
  {
    var lo := h.Floor;
    var hi := if lo + 1 < |s| then lo + 1 else lo;
    var f := h - lo as real;
    var d := s[hi] - s[lo];
    assert Interp(s, h) == s[lo] + f * d;
    assert 0.0 <= f < 1.0;
    assert d >= 0.0;
    MulMono(0.0, f, d);
    MulMono(f, 1.0, d);
  }

  /** Interpolation is monotone in the rank. */
  lemma InterpMonotone(s: seq<real>, h1: real, h2: real)
    requires |s| >= 1 && Sorted(s)
    requires 0.0 <= h1 <= h2 <= (|s| - 1) as real
    ensures Interp(s, h1) <= Interp(s, h2)
  {
    var lo1, lo2 := h1.Floor, h2.Floor;
    InterpBetween(s, h1);
    InterpBetween(s, h2);
    if lo1 == lo2 {
      var hi := if lo1 + 1 < |s| then lo1 + 1 else lo1;
      var d := s[hi] - s[lo1];
      var f1, f2 := h1 - lo1 as real, h2 - lo1 as real;
      assert d >= 0.0;
      MulMono(f1, f2, d);
      assert Interp(s, h1) == s[lo1] + f1 * d;
      assert Interp(s, h2) == s[lo1] + f2 * d;
    } else {
      assert lo1 + 1 <= lo2;
      assert s[lo1 + 1] <= s[lo2];
    }
  }

  lemma RankMonotone(n: nat, p: real, q: real)
    requires n >= 1 && 0.0 <= p <= q <= 100.0
    ensures Rank(n, p) <= Rank(n, q)
  {
    MulMono(p, q, (n - 1) as real);
  }

  /** Raising the percentile never lowers the threshold. */
  lemma PercentileMonotone(xs: seq<real>, p: real, q: real)
    requires |xs| >= 1 && 0.0 <= p <= q <= 100.0
    ensures Percentile(xs, p).Ok? && Percentile(xs, q).Ok?
    ensures Percentile(xs, p).value <= Percentile(xs, q).value
  {
    RankMonotone(|xs|, p, q);
    InterpMonotone(SortAsc(xs), Rank(|xs|, p), Rank(|xs|, q));
  }

  /** The first and the last element of a sorted permutation of `xs` occur
      in `xs`, and every element of `xs` lies between them. */
  lemma SortedExtremes(s: seq<real>, xs: seq<real>)
    requires |s| >= 1 && Sorted(s) && multiset(s) == multiset(xs)
    ensures s[0] in xs && s[|s| - 1] in xs
    ensures forall k :: 0 <= k < |xs| ==> s[0] <= xs[k] <= s[|s| - 1]
  {
    assert s[0] in multiset(xs);
    assert s[|s| - 1] in multiset(xs);
    forall k | 0 <= k < |xs|
      ensures s[0] <= xs[k] <= s[|s| - 1]
    {
      assert xs[k] in multiset(s);
      var m :| 0 <= m < |s| && s[m] == xs[k];
    }
  }

  /** Interpolating a sorted sample stays between its first and last element,
      and at the last rank it is the last element. */
  lemma InterpWithin(s: seq<real>, h: real)
    requires |s| >= 1 && 0.0 <= h <= (|s| - 1) as real && Sorted(s)
    ensures s[0] <= Interp(s, h) <= s[|s| - 1]
    ensures h == (|s| - 1) as real ==> Interp(s, h) == s[|s| - 1]
  {
    InterpBetween(s, h);
  }

  /** Below the 100th percentile, a score strictly larger than every other
      lies strictly above the percentile. */
  lemma PercentileBelowStrictMax(xs: seq<real>, p: real, m: nat)
    requires |xs| >= 2 && 0.0 <= p < 100.0 && m < |xs|
    requires forall i :: 0 <= i < |xs| && i != m ==> xs[i] < xs[m]
    ensures Percentile(xs, p).Ok? && Percentile(xs, p).value < xs[m]
  {
    var n := |xs|;
    var s := SortAsc(xs);
    SortedExtremes(s, xs);
    var j :| 0 <= j < n && xs[j] == s[n - 1];
    assert s[n - 1] == xs[m];
    SecondLargestBelow(s, xs, m);
    RankBelowLast(n, p);
    InterpBelowLast(s, Rank(n, p));
  }

  /** The rank of a percentile below 100 is below the last position. */
  lemma RankBelowLast(n: nat, p: real)
    requires n >= 2 && 0.0 <= p < 100.0
    ensures Rank(n, p) < (n - 1) as real
  {
    var m := (n - 1) as real;
    assert (100.0 - p) * m > 0.0;
    assert m * p == m * 100.0 - (100.0 - p) * m;
  }

  /** Interpolating below the last rank stays below the last element when
      the last element is strictly the largest. */
  lemma InterpBelowLast(s: seq<real>, h: real)
    requires |s| >= 2 && Sorted(s) && 0.0 <= h < (|s| - 1) as real
    requires s[|s| - 2] < s[|s| - 1]
    ensures Interp(s, h) < s[|s| - 1]
  {
    var lo := h.Floor;
    assert lo <= |s| - 2;
    InterpBetween(s, h);
    if lo + 1 < |s| - 1 {
      assert s[lo + 1] <= s[|s| - 2];
    } else {
      var f := h - lo as real;
      var d := s[lo + 1] - s[lo];
      assert Interp(s, h) == s[lo] + f * d;
      assert 0.0 <= f < 1.0 && d > 0.0;
      assert (1.0 - f) * d > 0.0;
      assert f * d == d - (1.0 - f) * d;
    }
  }

  /** In the ascending copy of a sample whose maximum occurs once, the
      second-to-last element is strictly below the last. */
  lemma SecondLargestBelow(s: seq<real>, xs: seq<real>, m: nat)
    requires |s| >= 2 && Sorted(s) && multiset(s) == multiset(xs) && m < |xs|
    requires forall i :: 0 <= i < |xs| && i != m ==> xs[i] < xs[m]
    requires s[|s| - 1] == xs[m]
    ensures s[|s| - 2] < s[|s| - 1]
  {
    var n := |s|;
    var v := xs[m];
    assert multiset(xs)[v] == 1 by {
      assert xs == xs[..m] + [v] + xs[m + 1..];
      assert v !in xs[..m];
      assert v !in xs[m + 1..];
    }
    assert s == s[..n - 1] + [v];
    assert multiset(s[..n - 1])[v] == 0;
    assert s[..n - 1][n - 2] == s[n - 2];
    assert s[n - 2] in multiset(s[..n - 1]);
  }

  /** The percentile is an error exactly for an empty sample or a percent
      outside [0, 100]; otherwise it lies between the smallest and the largest
      score, and at 100 it is the largest score. */
  lemma PercentileRange(xs: seq<real>, p: real)
    ensures Percentile(xs, p).Err? <==> |xs| == 0 || p < 0.0 || p > 100.0
    ensures Percentile(xs, p).Ok? ==>
              (exists i :: 0 <= i < |xs| && xs[i] <= Percentile(xs, p).value) &&
              (exists j :: 0 <= j < |xs| && Percentile(xs, p).value <= xs[j])
    ensures |xs| >= 1 && p == 100.0 ==> forall i :: 0 <= i < |xs| ==> xs[i] <= Percentile(xs, p).value
  {
    if |xs| >= 1 && 0.0 <= p <= 100.0 {
      var s := SortAsc(xs);
      SortedExtremes(s, xs);
      InterpWithin(s, Rank(|xs|, p));
      var i :| 0 <= i < |xs| && xs[i] == s[0];
      var j :| 0 <= j < |xs| && xs[j] == s[|xs| - 1];
    }
  }

  /** Indices `i >= from` of the scores strictly above `t`, ascending. */
  function IndicesAbove(scores: seq<real>, t: real, from: nat): (r: seq<nat>)
    requires from <= |scores|
    ensures forall j :: 0 <= j < |r| ==> from <= r[j] < |scores| && scores[r[j]] > t
    ensures forall j, k :: 0 <= j < k < |r| ==> r[j] < r[k]
    ensures forall i :: from <= i < |scores| && scores[i] > t ==> i in r
    decreases |scores| - from
  {
    if from == |scores| then []
    else if scores[from] > t then [from] + IndicesAbove(scores, t, from + 1)
    else IndicesAbove(scores, t, from + 1)
  }

  /** Number of scores at positions `i >= from` strictly above `t`. */
  function CountAbove(scores: seq<real>, t: real, from: nat): nat
    requires from <= |scores|
    decreases |scores| - from
  {
    if from == |scores| then 0
    else (if scores[from] > t then 1 else 0) + CountAbove(scores, t, from + 1)
  }

  lemma {:induction false} IndicesAboveCount(scores: seq<real>, t: real, from: nat)
    requires from <= |scores|
    ensures |IndicesAbove(scores, t, from)| == CountAbove(scores, t, from)
    decreases |scores| - from
  {
    if from < |scores| {
      IndicesAboveCount(scores, t, from + 1);
    }
  }

  lemma {:induction false} CountAboveAntitone(scores: seq<real>, t1: real, t2: real, from: nat)
    requires from <= |scores| && t1 <= t2
    ensures CountAbove(scores, t2, from) <= CountAbove(scores, t1, from)
    decreases |scores| - from
  {
    if from < |scores| {
      CountAboveAntitone(scores, t1, t2, from + 1);
    }
  }

  /** A higher threshold keeps no more indices. */
  lemma AboveAntitone(scores: seq<real>, t1: real, t2: real, from: nat)
    requires from <= |scores| && t1 <= t2
    ensures |IndicesAbove(scores, t2, from)| <= |IndicesAbove(scores, t1, from)|
  {
    IndicesAboveCount(scores, t1, from);
    IndicesAboveCount(scores, t2, from);
    CountAboveAntitone(scores, t1, t2, from);
  }

  /** The images whose paired score is strictly above `t`, in input order;
      pairing follows `zip`, which stops at the shorter list. */
  function KeepAbove<T>(images: seq<T>, scores: seq<real>, t: real): (r: seq<T>)
  {
    var n := if |images| < |scores| then |images| else |scores|;
    var idx := IndicesAbove(scores[..n], t, 0);
    seq(|idx|, j requires 0 <= j < |idx| => images[idx[j]])
  }
}
