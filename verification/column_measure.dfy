/**
 The measure policy of `ScrollableSelectColumn` (and its verbatim twin
 `SlideSelectBarColumn`): children are stacked top to bottom, the column is
 as tall as all of them together and as wide as the widest width it is
 allowed.
 */
module ColumnMeasure {

  /** The size a measure pass reports and the y at which each child is placed. */
  datatype Placement = Placement(width: int, height: int, ys: seq<int>)

  /** Total of a sequence of heights, peeled from the end so that a prefix
      grows by one element at a time. */
  function Sum(hs: seq<nat>): nat
  {
    if |hs| == 0 then 0 else Sum(hs[..|hs| - 1]) + hs[|hs| - 1]
  }

  lemma SumAppend(hs: seq<nat>, k: nat)
    requires k < |hs|
    ensures Sum(hs[..k + 1]) == Sum(hs[..k]) + hs[k]
  {
    assert hs[..k + 1][..k] == hs[..k];
  }

  /** Sum of a prefix is monotone in the prefix length. */
  lemma {:induction false} SumPrefixMonotone(hs: seq<nat>, i: nat, j: nat)
    requires i <= j <= |hs|
    ensures Sum(hs[..i]) <= Sum(hs[..j])
    decreases j - i
  {
    if i < j {
      SumAppend(hs, j - 1);
      SumPrefixMonotone(hs, i, j - 1);
    }
  }

  /** The measure pass: one loop accumulates `needHeight`, the placement
      block walks the children again with a running `currentY`. */
  method Measure(heights: seq<nat>, maxWidth: int) returns (p: Placement)
    ensures p.width == maxWidth
    ensures p.height == Sum(heights)
    ensures |p.ys| == |heights|
    ensures forall k :: 0 <= k < |heights| ==> p.ys[k] == Sum(heights[..k])
  {
    var needHeight := 0;
    var i := 0;
    while i < |heights|
      invariant 0 <= i <= |heights|
      invariant needHeight == Sum(heights[..i])
    {
      SumAppend(heights, i);
      needHeight := needHeight + heights[i];
      i := i + 1;
    }
    assert heights[..|heights|] == heights;
    var currentY := 0;
    var ys: seq<int> := [];
    var j := 0;
    while j < |heights|
      invariant 0 <= j <= |heights|
      invariant |ys| == j
      invariant currentY == Sum(heights[..j])
      invariant forall k :: 0 <= k < j ==> ys[k] == Sum(heights[..k])
    {
      ys := ys + [currentY];
      SumAppend(heights, j);
      currentY := currentY + heights[j];
      j := j + 1;
    }
    p := Placement(maxWidth, needHeight, ys);
  }

  /** Reference placement: child `k` sits at the sum of the heights above
      it, so the first child is at the top and the last one ends at the
      bottom. */
  function Offsets(heights: seq<nat>): (ys: seq<int>)
    ensures |ys| == |heights|
    ensures |heights| > 0 ==> ys[0] == 0
    ensures |heights| > 0 ==> ys[|heights| - 1] + heights[|heights| - 1] == Sum(heights)
  {
    seq(|heights|, k requires 0 <= k < |heights| => Sum(heights[..k]))
  }

  /** Rows are contiguous: each row starts where the previous one ends. */
  lemma RowsContiguous(heights: seq<nat>)
    ensures forall k :: 0 <= k < |heights| - 1 ==>
      Offsets(heights)[k + 1] == Offsets(heights)[k] + heights[k]
  {
    forall k | 0 <= k < |heights| - 1
      ensures Offsets(heights)[k + 1] == Offsets(heights)[k] + heights[k]
    {
      SumAppend(heights, k);
    }
  }

  /** Rows are in order and do not overlap: a row ends no lower than the
      start of every row below it. */
  lemma RowsDisjoint(heights: seq<nat>, i: nat, j: nat)
    requires i < j < |heights|
    ensures Offsets(heights)[i] + heights[i] <= Offsets(heights)[j]
  {
    var ys := Offsets(heights);
    assert ys[i] == Sum(heights[..i]);
    assert ys[j] == Sum(heights[..j]);
    SumAppend(heights, i);
    SumPrefixMonotone(heights, i + 1, j);
  }

  /** Every row lies inside the column the measure pass reports. */
  lemma RowInsideColumn(heights: seq<nat>, k: nat)
    requires k < |heights|
    ensures 0 <= Offsets(heights)[k] && Offsets(heights)[k] + heights[k] <= Sum(heights)
  {
    assert Offsets(heights)[k] == Sum(heights[..k]);
    SumAppend(heights, k);
    SumPrefixMonotone(heights, k + 1, |heights|);
    assert heights[..|heights|] == heights;
  }

  /** `count` rows of the same height `h`. */
  function Uniform(count: nat, h: nat): (hs: seq<nat>)
    ensures |hs| == count
  {
    seq(count, _ => h)
  }

  /** A column of `count` rows of height `h` is `count * h` tall, and row `k`
      of it starts at `k * h`. */
  lemma {:induction false} UniformColumn(count: nat, h: nat)
    ensures Sum(Uniform(count, h)) == count * h
    ensures forall k :: 0 <= k < count ==> Offsets(Uniform(count, h))[k] == k * h
  {
    if count > 0 {
      UniformColumn(count - 1, h);
      assert Uniform(count, h)[..count - 1] == Uniform(count - 1, h);
      forall k | 0 <= k < count
        ensures Offsets(Uniform(count, h))[k] == k * h
      {
        assert Uniform(count, h)[..k] == Uniform(count - 1, h)[..k];
        if k < count - 1 {
          assert Offsets(Uniform(count - 1, h))[k] == k * h;
        } else {
          assert Uniform(count - 1, h)[..k] == Uniform(count - 1, h);
        }
      }
    }
  }
}
