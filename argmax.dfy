/** `np.argmax` and the "best of each consecutive group" selection built on it.
    Groups of size `g` cover the scores in order; the last group holds what is
    left. Within a group numpy's argmax returns the FIRST position of the maximum. */
module ArgMax {
  import opened Arith

  /** `np.argmax(s)`: the first position holding the largest score. */
  function FirstArgMax(s: seq<real>): (k: nat)
    requires |s| >= 1
    ensures k < |s|
    ensures forall i :: 0 <= i < |s| ==> s[i] <= s[k]
    ensures forall i :: 0 <= i < k ==> s[i] < s[k]
    decreases |s|
  {
    if |s| == 1 then 0
    else
      var k := FirstArgMax(s[..|s| - 1]);
      if s[|s| - 1] > s[k] then |s| - 1 else k
  }

  /** The two properties above pin the position down: a maximum with no equal
      score before it is the one argmax returns. */
  lemma FirstArgMaxUnique(s: seq<real>, k: nat)
    requires k < |s|
    requires forall i :: 0 <= i < |s| ==> s[i] <= s[k]
    requires forall i :: 0 <= i < k ==> s[i] < s[k]
    ensures FirstArgMax(s) == k
  {
  }

  /** Number of groups of size `g` needed to cover `n` scores. */
  function NumGroups(n: nat, g: nat): nat
    requires g >= 1
  {
    CeilDiv(n, g)
  }

  /** End (exclusive) of group `i`: `min((i + 1) * g, n)`. */
  function GroupEnd(i: nat, g: nat, n: nat): nat
  {
    if (i + 1) * g < n then (i + 1) * g else n
  }

  lemma GroupStartInside(n: nat, g: nat, i: nat)
    requires g >= 1 && i < NumGroups(n, g)
    ensures i * g < GroupEnd(i, g, n) <= n
    ensures GroupEnd(i, g, n) <= i * g + g
  {
    CeilDivBounds(n, g);
    MulLe(i, NumGroups(n, g) - 1, g);
    assert (i + 1) * g == i * g + g;
  }

  /** Global position of the best score of group `i`. */
  function GroupBest(s: seq<real>, g: nat, i: nat): (k: nat)
    requires g >= 1 && i < NumGroups(|s|, g)
    ensures i * g <= k < GroupEnd(i, g, |s|) <= |s|
    ensures forall j :: i * g <= j < GroupEnd(i, g, |s|) ==> s[j] <= s[k]
    ensures forall j :: i * g <= j < k ==> s[j] < s[k]
  {
    GroupStartInside(|s|, g, i);
    var group := s[i * g .. GroupEnd(i, g, |s|)];
    var b := FirstArgMax(group);
    assert forall j :: i * g <= j < GroupEnd(i, g, |s|) ==> s[j] == group[j - i * g];
    i * g + b
  }

  /** The positions picked by group-argmax, one per group, in group order. */
  function BestIndices(s: seq<real>, g: nat): (r: seq<nat>)
    requires g >= 1
    ensures |r| == NumGroups(|s|, g)
  {
    seq(NumGroups(|s|, g), i requires 0 <= i < NumGroups(|s|, g) => GroupBest(s, g, i))
  }

  /** Consecutive groups tile the scores: group `i + 1` starts where group `i`
      ends, the first starts at 0 and the last ends at `n`. */
  lemma GroupsTile(n: nat, g: nat)
    requires g >= 1
    ensures forall i :: 0 <= i < NumGroups(n, g) - 1 ==> GroupEnd(i, g, n) == (i + 1) * g
    ensures NumGroups(n, g) >= 1 ==> GroupEnd(NumGroups(n, g) - 1, g, n) == n
  {
    CeilDivBounds(n, g);
    forall i | 0 <= i < NumGroups(n, g) - 1
      ensures GroupEnd(i, g, n) == (i + 1) * g
    {
      MulLe(i + 1, NumGroups(n, g) - 1, g);
    }
    if NumGroups(n, g) >= 1 {
      var q := NumGroups(n, g);
      assert (q - 1 + 1) * g == q * g;
    }
  }

  /** The picked positions are strictly increasing, each lies in its own group
      and is the first maximum there. */
  lemma BestIndicesOrdered(s: seq<real>, g: nat)
    requires g >= 1
    ensures forall i, j :: 0 <= i < j < |BestIndices(s, g)| ==> BestIndices(s, g)[i] < BestIndices(s, g)[j]
    ensures forall i :: 0 <= i < |BestIndices(s, g)| ==> BestIndices(s, g)[i] < |s|
  {
    var r := BestIndices(s, g);
    forall i, j | 0 <= i < j < |r|
      ensures r[i] < r[j]
    {
      assert r[i] == GroupBest(s, g, i) && r[j] == GroupBest(s, g, j);
      MulLe(i + 1, j, g);
      assert GroupEnd(i, g, |s|) <= (i + 1) * g;
    }
  }

  /** The images at the given positions, in the given order. */
  function Select<T>(images: seq<T>, idx: seq<nat>): (r: seq<T>)
    requires forall j :: 0 <= j < |idx| ==> idx[j] < |images|
    ensures |r| == |idx|
    ensures forall j :: 0 <= j < |idx| ==> r[j] == images[idx[j]]
  {
    seq(|idx|, j requires 0 <= j < |idx| => images[idx[j]])
  }

  lemma SelectAppend<T>(images: seq<T>, idx: seq<nat>, k: nat)
    requires forall j :: 0 <= j < |idx| ==> idx[j] < |images|
    requires k < |images|
    ensures Select(images, idx + [k]) == Select(images, idx) + [images[k]]
  {
  }

  /** Group `i` holds `group`, whose first maximum sits at offset `b`. */
  lemma GroupBestOf(s: seq<real>, g: nat, i: nat, group: seq<real>, b: nat)
    requires g >= 1 && i < NumGroups(|s|, g)
    requires GroupEnd(i, g, |s|) == i * g + |group| && s[i * g .. i * g + |group|] == group
    requires b < |group|
    requires forall j :: 0 <= j < |group| ==> group[j] <= group[b]
    requires forall j :: 0 <= j < b ==> group[j] < group[b]
    ensures GroupBest(s, g, i) == i * g + b
  {
    FirstArgMaxUnique(group, b);
  }

  /** The best of each group of three in the extractor's test sample. */
  lemma ExampleGroups(s: seq<real>)
    requires s == [7.0, 2.0, 9.0, 3.0, 8.0, 5.0, 10.0, 1.0, 4.0, 6.0]
    ensures NumGroups(10, 3) == 4
    ensures GroupBest(s, 3, 0) == 2 && GroupBest(s, 3, 1) == 4
    ensures GroupBest(s, 3, 2) == 6 && GroupBest(s, 3, 3) == 9
  {
    CeilDivBounds(10, 3);
    GroupBestOf(s, 3, 0, [7.0, 2.0, 9.0], 2);
    GroupBestOf(s, 3, 1, [3.0, 8.0, 5.0], 1);
    GroupBestOf(s, 3, 2, [10.0, 1.0, 4.0], 0);
    GroupBestOf(s, 3, 3, [6.0], 0);
  }

  /** The test case of the best-frames extractor: groups of three over ten scores. */
  lemma BestIndicesExample()
    ensures BestIndices([7.0, 2.0, 9.0, 3.0, 8.0, 5.0, 10.0, 1.0, 4.0, 6.0], 3) == [2, 4, 6, 9]
  {
    var s := [7.0, 2.0, 9.0, 3.0, 8.0, 5.0, 10.0, 1.0, 4.0, 6.0];
    ExampleGroups(s);
    var r := BestIndices(s, 3);
    assert r[0] == 2 && r[1] == 4 && r[2] == 6 && r[3] == 9;
  }
}
