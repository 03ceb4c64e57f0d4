/** The chart downsampler (`downsample_data`, the definition at app.py:131-143,
    which shadows the earlier one at app.py:103-107).

    A series no longer than the target is returned unchanged; otherwise every
    `step`-th row is taken from position 0 on, with `step = len // target`,
    and the last row is appended when the stride did not reach it. Both
    `df.iloc[::step]` and `df.iloc[[-1]]` select rows by position, so the
    model computes the kept positions first and then picks the rows there.
    It is generic in the row type: the downsampler never looks inside a row. */
module Sampling {
  import opened Indexing

  /** The positions `start, start + step, start + 2 * step, ...` below `n`
      (the positions that `df.iloc[start::step]` selects from `n` rows). */
  function StridePositions(start: nat, n: nat, step: nat): (p: seq<nat>)
    requires step > 0
    ensures forall i :: 0 <= i < |p| ==> start <= p[i] < n
    decreases n - start
  {
    if start >= n then [] else [start] + StridePositions(start + step, n, step)
  }

  /** The positions the reduction keeps: the stride positions, then the last
      position `n - 1` unless the stride already ended on it. */
  function ReducedPositions(n: nat, step: nat): (k: seq<nat>)
    requires step > 0
    ensures forall i :: 0 <= i < |k| ==> k[i] < n
  {
    var stride := StridePositions(0, n, step);
    if n > 0 && stride[|stride| - 1] != n - 1 then stride + [n - 1] else stride
  }

  /** The rows of `s` at the given positions, in the order given
      (`df.iloc[positions]`). */
  function Pick<T>(s: seq<T>, positions: seq<nat>): (r: seq<T>)
    requires forall i :: 0 <= i < |positions| ==> positions[i] < |s|
    ensures |r| == |positions|
    ensures forall i :: 0 <= i < |r| ==> r[i] == s[positions[i]]
  {
    seq(|positions|, i requires 0 <= i < |positions| => s[positions[i]])
  }

  /** The stride sampling with the last row forced in. The source asks
      whether the last index label is among the sampled labels;
      `ReduceAppendsUnlessSampled` proves that this is the same test. */
  function Reduce<T>(s: seq<T>, step: nat): seq<T>
    requires step > 0
  {
    Pick(s, ReducedPositions(|s|, step))
  }

  /** The stride `len(df) // target_points` of a series longer than the target. */
  function Step(n: nat, targetPoints: nat): (step: nat)
    requires 0 < targetPoints < n
    ensures step >= 1
  {
    n / targetPoints
  }

  /** `downsample_data(df, target_points)`. The source divides by
      `target_points`, so it must be positive. */
  function Downsample<T>(s: seq<T>, targetPoints: nat): seq<T>
    requires targetPoints > 0
  {
    if |s| <= targetPoints then s else Reduce(s, Step(|s|, targetPoints))
  }

  /** The positions of `s` that `Downsample` keeps: every position when
      nothing is reduced, the reduced positions otherwise. */
  ghost function KeptPositions(n: nat, targetPoints: nat): seq<nat>
    requires targetPoints > 0
  {
    if n <= targetPoints then StridePositions(0, n, 1) else ReducedPositions(n, Step(n, targetPoints))
  }

  // ---------------------------------------------------------------------
  // The stride positions

  /** The `i`-th stride position is `start + i * step`. */
  lemma {:induction false} StrideValues(start: nat, n: nat, step: nat)
    requires step > 0
    ensures forall i :: 0 <= i < |StridePositions(start, n, step)| ==>
      StridePositions(start, n, step)[i] == start + i * step
    decreases n - start
  {
    if start < n {
      var p := StridePositions(start, n, step);
      var rest := StridePositions(start + step, n, step);
      StrideValues(start + step, n, step);
      assert p == [start] + rest;
      forall i | 1 <= i < |p| ensures p[i] == start + i * step {
        var j := i - 1;
        assert rest[j] == start + step + j * step;
        MulSucc(j, step);
        assert p[i] == rest[j];
      }
    }
  }

  /** The stride stops at the first position `start + i * step` that is not
      below `n`. */
  lemma {:induction false} StrideLength(start: nat, n: nat, step: nat)
    requires step > 0
    ensures var p := StridePositions(start, n, step);
      && (start < n ==> |p| > 0 && (|p| - 1) * step < n - start <= |p| * step)
      && (start >= n ==> p == [])
    decreases n - start
  {
    if start < n {
      var rest := StridePositions(start + step, n, step);
      StrideLength(start + step, n, step);
      assert |StridePositions(start, n, step)| == |rest| + 1;
      MulSucc(|rest|, step);
      if |rest| > 0 {
        MulSucc(|rest| - 1, step);
      }
    }
  }

  lemma MulSucc(a: nat, b: nat)
    ensures (a + 1) * b == a * b + b
  {
  }

  /** The `i`-th position from 0 is `i * step`. */
  lemma StrideAt(n: nat, step: nat, i: nat)
    requires step > 0 && i < |StridePositions(0, n, step)|
    ensures StridePositions(0, n, step)[i] == i * step
  {
    StrideValues(0, n, step);
  }

  /** The stride from 0 ends on `(|p| - 1) * step`, and one more step would
      pass the last row. */
  lemma StrideEnd(n: nat, step: nat)
    requires step > 0 && n > 0
    ensures var p := StridePositions(0, n, step);
      && |p| > 0
      && p[|p| - 1] == (|p| - 1) * step
      && |p| * step >= n
  {
    StrideValues(0, n, step);
    StrideLength(0, n, step);
  }

  lemma {:induction false} StrideIncreasing(start: nat, n: nat, step: nat)
    requires step > 0
    ensures StrictlyIncreasing(StridePositions(start, n, step))
    decreases n - start
  {
    if start < n {
      var p := StridePositions(start, n, step);
      var rest := StridePositions(start + step, n, step);
      StrideIncreasing(start + step, n, step);
      assert p == [start] + rest;
      forall i, j | 0 <= i < j < |p| ensures p[i] < p[j] {
        assert p[j] == rest[j - 1];
        if i > 0 {
          assert p[i] == rest[i - 1];
        }
      }
    }
  }

  /** The last stride position is `n - 1` exactly when `n - 1` is among them. */
  lemma LastInStride(n: nat, step: nat)
    requires step > 0 && n > 0
    ensures var p := StridePositions(0, n, step);
      |p| > 0 && ((n - 1 in p) <==> p[|p| - 1] == n - 1)
  {
    var p := StridePositions(0, n, step);
    assert p[0] == 0;
    if n - 1 in p {
      var i :| 0 <= i < |p| && p[i] == n - 1;
      StrideIncreasing(0, n, step);
      assert i == |p| - 1;
    } else {
      assert p[|p| - 1] in p;
    }
  }

  /** Strictly increasing positions below `m` number at most `m`. */
  lemma {:induction false} IncreasingBelow(idx: seq<nat>, m: nat)
    requires StrictlyIncreasing(idx)
    requires forall i :: 0 <= i < |idx| ==> idx[i] < m
    ensures |idx| <= m
    decreases m
  {
    if |idx| > 0 {
      assert idx[|idx| - 1] < m;
      var init := idx[..|idx| - 1];
      forall i | 0 <= i < |init| ensures init[i] < m - 1 {
        assert idx[i] < idx[|idx| - 1];
      }
      IncreasingBelow(init, m - 1);
    }
  }

  // ---------------------------------------------------------------------
  // The reduced positions

  /** The reduced positions are strictly increasing. */
  lemma ReducedIncreasing(n: nat, step: nat)
    requires step > 0
    ensures StrictlyIncreasing(ReducedPositions(n, step))
  {
    var stride := StridePositions(0, n, step);
    StrideIncreasing(0, n, step);
    if n > 0 && stride[|stride| - 1] != n - 1 {
      var last := stride[|stride| - 1];
      forall i | 0 <= i < |stride| ensures stride[i] < n - 1 {
        assert stride[i] <= last;
      }
      IncreasingAppend(stride, n - 1);
    }
  }

  /** The reduced positions start at 0, end at `n - 1`, and number at most `n`. */
  lemma ReducedEnds(n: nat, step: nat)
    requires step > 0
    ensures var k := ReducedPositions(n, step);
      && |k| <= n
      && (n > 0 ==> |k| > 0 && k[0] == 0 && k[|k| - 1] == n - 1)
  {
    ReducedIncreasing(n, step);
    IncreasingBelow(ReducedPositions(n, step), n);
  }

  /** Every reduced position but the last is a stride position `i * step`,
      and the last is no earlier than where the stride would put it. */
  lemma ReducedStride(n: nat, step: nat)
    requires step > 0 && n > 0
    ensures var k := ReducedPositions(n, step);
      && |k| > 0
      && (forall i :: 0 <= i < |k| - 1 ==> k[i] == i * step)
      && (|k| - 1) * step >= n - 1
  {
    var stride := StridePositions(0, n, step);
    var k := ReducedPositions(n, step);
    StrideEnd(n, step);
    forall i | 0 <= i < |k| - 1 ensures k[i] == i * step {
      StrideAt(n, step, i);
    }
  }

  /** With step 1 the reduced positions are `0, 1, ..., n - 1`. */
  lemma ReducedByOne(n: nat)
    ensures var k := ReducedPositions(n, 1);
      |k| == n && forall i :: 0 <= i < n ==> k[i] == i
  {
    StrideValues(0, n, 1);
    StrideLength(0, n, 1);
  }

  lemma LessByFactor(a: int, b: int, k: int)
    requires k > 0 && a * k < b * k
    ensures a < b
  {
    assert (b - a) * k > 0;
  }

  lemma MulAtLeast(a: nat, b: nat, k: nat)
    requires b >= k
    ensures a * b >= a * k
  {
    assert a * b - a * k == a * (b - k);
  }

  lemma Distrib(a: int, b: int, k: int)
    ensures (a + b) * k == a * k + b * k
  {
  }

  /** The arithmetic behind the length bound: with step at least 2, the
      stride cannot run past `2 * targetPoints - 1` positions, and one fewer
      when the last position was missed. */
  lemma StrideCountBound(n: nat, targetPoints: nat, step: nat, c: nat)
    requires targetPoints >= 1 && step >= 2 && c >= 1
    requires n <= step * targetPoints + targetPoints - 1
    requires (c - 1) * step <= n - 1
    ensures c <= 2 * targetPoints - 1
    ensures (c - 1) * step < n - 1 && targetPoints >= 2 ==> c <= 2 * targetPoints - 2
  {
    var m := targetPoints - 1;
    Distrib(targetPoints, m, step);
    MulAtLeast(m, step, 2);
    LessByFactor(c - 1, targetPoints + m, step);
    if (c - 1) * step < n - 1 && targetPoints >= 2 {
      var m2 := targetPoints - 2;
      Distrib(targetPoints, m2, step);
      MulAtLeast(m2, step, 2);
      LessByFactor(c - 1, targetPoints + m2, step);
    }
  }

  /** With a step of at least 2 on `n` rows that the step divides into fewer
      than `targetPoints + 1` strides, at most `2 * targetPoints - 1`
      positions are kept, or 2 when the target is 1. */
  lemma ReducedCount(n: nat, step: nat, targetPoints: nat)
    requires targetPoints >= 1 && step >= 2 && n > 0
    requires n <= step * targetPoints + targetPoints - 1
    ensures |ReducedPositions(n, step)| <= 2 * targetPoints
    ensures targetPoints >= 2 ==> |ReducedPositions(n, step)| < 2 * targetPoints
  {
    var stride := StridePositions(0, n, step);
    var c := |stride|;
    StrideEnd(n, step);
    StrideCountBound(n, targetPoints, step, c);
  }

  // ---------------------------------------------------------------------
  // The reduction

  /** Picking one more position appends that row. */
  lemma PickAppend<T>(s: seq<T>, positions: seq<nat>, p: nat)
    requires forall i :: 0 <= i < |positions| ==> positions[i] < |s|
    requires p < |s|
    ensures Pick(s, positions + [p]) == Pick(s, positions) + [s[p]]
  {
    var longer := positions + [p];
    assert forall i :: 0 <= i < |positions| ==> longer[i] == positions[i];
  }

  /** The source's own formulation: `df.iloc[::step]`, with the last row
      concatenated exactly when its position is not among the sampled ones. */
  lemma ReduceAppendsUnlessSampled<T>(s: seq<T>, step: nat)
    requires step > 0
    ensures var stride := StridePositions(0, |s|, step);
      Reduce(s, step) == if |s| > 0 && |s| - 1 !in stride then Pick(s, stride) + [s[|s| - 1]] else Pick(s, stride)
  {
    var n := |s|;
    var stride := StridePositions(0, n, step);
    ReducedUnlessSampled(n, step);
    if n > 0 && n - 1 !in stride {
      PickAppend(s, stride, n - 1);
    }
  }

  /** The reduced positions add `n - 1` exactly when it is not a stride position. */
  lemma ReducedUnlessSampled(n: nat, step: nat)
    requires step > 0
    ensures var stride := StridePositions(0, n, step);
      ReducedPositions(n, step) == if n > 0 && n - 1 !in stride then stride + [n - 1] else stride
  {
    if n > 0 {
      LastInStride(n, step);
    }
  }

  /** Picking at increasing in-range positions is a selection. */
  lemma PickSelects<T>(s: seq<T>, positions: seq<nat>)
    requires StrictlyIncreasing(positions)
    requires forall i :: 0 <= i < |positions| ==> positions[i] < |s|
    ensures SelectedAt(Pick(s, positions), s, positions)
  {
  }

  lemma ReduceSelects<T>(s: seq<T>, step: nat)
    requires step > 0
    ensures SelectedAt(Reduce(s, step), s, ReducedPositions(|s|, step))
  {
    ReducedIncreasing(|s|, step);
    PickSelects(s, ReducedPositions(|s|, step));
  }

  /** Reducing keeps the first row, ends with the last row, and never
      lengthens the series. */
  lemma ReduceEnds<T>(s: seq<T>, step: nat)
    requires step > 0
    ensures var r := Reduce(s, step);
      && |r| <= |s|
      && (|s| > 0 ==> |r| > 0 && r[0] == s[0] && r[|r| - 1] == s[|s| - 1])
  {
    ReducedEnds(|s|, step);
  }

  /** The rows before the last are the stride picks `s[0], s[step],
      s[2 * step], ...`, and the stride reaches the end (no stride position
      is skipped). */
  lemma ReduceStride<T>(s: seq<T>, step: nat)
    requires step > 0 && |s| > 0
    ensures var r := Reduce(s, step);
      && (forall i :: 0 <= i < |r| - 1 ==> i * step < |s| && r[i] == s[i * step])
      && (|r| - 1) * step >= |s| - 1
  {
    var k := ReducedPositions(|s|, step);
    ReducedStride(|s|, step);
    forall i | 0 <= i < |k| - 1 ensures i * step < |s| && Reduce(s, step)[i] == s[i * step] {
      assert k[i] == i * step;
    }
  }

  /** The reduction holds at most one row more than the stride takes, and
      the stride takes `ceil(n / step)` rows: the least `c` with
      `c * step >= n`. */
  lemma ReduceCount<T>(s: seq<T>, step: nat)
    requires step > 0
    ensures var c := |StridePositions(0, |s|, step)|;
      && |Reduce(s, step)| <= c + 1
      && (|s| > 0 ==> (c - 1) * step < |s| <= c * step)
  {
    StrideLength(0, |s|, step);
  }

  /** Stride sampling with step 1 keeps every row. */
  lemma ReduceByOne<T>(s: seq<T>)
    ensures Reduce(s, 1) == s
  {
    ReducedByOne(|s|);
  }

  /** The reduction's length bound, for a step of at least 2. */
  lemma ReduceLength<T>(s: seq<T>, step: nat, targetPoints: nat)
    requires targetPoints >= 1 && step >= 2 && |s| > 0
    requires |s| <= step * targetPoints + targetPoints - 1
    ensures |Reduce(s, step)| <= 2 * targetPoints
    ensures targetPoints >= 2 ==> |Reduce(s, step)| < 2 * targetPoints
  {
    ReducedCount(|s|, step, targetPoints);
  }

  // ---------------------------------------------------------------------
  // The downsampler

  /** The step is at least 1 and `n` falls short of `(step + 1) * targetPoints`. */
  lemma StepBounds(n: nat, targetPoints: nat)
    requires 0 < targetPoints < n
    ensures var step := Step(n, targetPoints);
      step >= 1 && step * targetPoints <= n <= step * targetPoints + targetPoints - 1
  {
  }

  /** Downsampling keeps exactly the rows at `KeptPositions`, in increasing
      order: the result is an order-preserving selection of the input. */
  lemma DownsampleSelects<T>(s: seq<T>, targetPoints: nat)
    requires targetPoints > 0
    ensures SelectedAt(Downsample(s, targetPoints), s, KeptPositions(|s|, targetPoints))
  {
    if |s| <= targetPoints {
      StrideValues(0, |s|, 1);
      StrideLength(0, |s|, 1);
      StrideIncreasing(0, |s|, 1);
    } else {
      ReduceSelects(s, Step(|s|, targetPoints));
    }
  }

  /** The first row is always kept; the last row is always kept and is last;
      the result is never longer than the input. */
  lemma DownsampleEnds<T>(s: seq<T>, targetPoints: nat)
    requires targetPoints > 0
    ensures var r := Downsample(s, targetPoints);
      && |r| <= |s|
      && (|s| > 0 ==> |r| > 0 && r[0] == s[0] && r[|r| - 1] == s[|s| - 1])
  {
    if |s| > targetPoints {
      ReduceEnds(s, Step(|s|, targetPoints));
    }
  }

  /** The source's own bound: a reduced series holds fewer than
      `2 * targetPoints` rows (at most 2 when the target is 1). */
  lemma DownsampleLength<T>(s: seq<T>, targetPoints: nat)
    requires targetPoints > 0
    ensures var r := Downsample(s, targetPoints);
      && |r| <= 2 * targetPoints
      && (targetPoints >= 2 ==> |r| < 2 * targetPoints)
  {
    if |s| > targetPoints {
      KeptCount(|s|, targetPoints);
    }
  }

  /** The number of positions kept from `n` rows when `n` exceeds the target. */
  lemma KeptCount(n: nat, targetPoints: nat)
    requires 0 < targetPoints < n
    ensures var k := ReducedPositions(n, Step(n, targetPoints));
      && |k| <= 2 * targetPoints
      && (targetPoints >= 2 ==> |k| < 2 * targetPoints)
  {
    var step := Step(n, targetPoints);
    if step == 1 {
      ReducedByOne(n);
      StepOneBound(n, targetPoints);
    } else {
      StepBounds(n, targetPoints);
      ReducedCount(n, step, targetPoints);
    }
  }

  /** A step of 1 means fewer than twice the target rows. */
  lemma StepOneBound(n: nat, targetPoints: nat)
    requires 0 < targetPoints < n && Step(n, targetPoints) == 1
    ensures n <= 2 * targetPoints - 1
  {
    StepBounds(n, targetPoints);
  }

  lemma DivIsOne(m: nat, targetPoints: nat)
    requires 0 < targetPoints < m < 2 * targetPoints
    ensures Step(m, targetPoints) == 1
  {
  }

  /** With target 1, a series of two or more rows keeps only its first
      and last row. */
  lemma DownsampleToOne<T>(s: seq<T>)
    requires |s| >= 2
    ensures Downsample(s, 1) == [s[0], s[|s| - 1]]
  {
    var n := |s|;
    assert Step(n, 1) == n;
    assert StridePositions(n, n, n) == [];
    assert ReducedPositions(n, n) == [0, n - 1];
  }

  /** Downsampling twice with the same target changes nothing the second time. */
  lemma DownsampleIdempotent<T>(s: seq<T>, targetPoints: nat)
    requires targetPoints > 0
    ensures Downsample(Downsample(s, targetPoints), targetPoints) == Downsample(s, targetPoints)
  {
    DownsampleLength(s, targetPoints);
    WithinBoundKept(Downsample(s, targetPoints), targetPoints);
  }

  /** A series within the length bound that `Downsample` guarantees is left
      unchanged by it. */
  lemma WithinBoundKept<T>(s: seq<T>, targetPoints: nat)
    requires targetPoints > 0 && |s| <= 2 * targetPoints
    requires targetPoints >= 2 ==> |s| < 2 * targetPoints
    ensures Downsample(s, targetPoints) == s
  {
    if |s| > targetPoints {
      if targetPoints >= 2 {
        ShortSeriesKept(s, targetPoints);
      } else {
        PairKept(s);
      }
    }
  }

  /** A series shorter than twice the target is reduced with step 1, which
      keeps every row. */
  lemma ShortSeriesKept<T>(s: seq<T>, targetPoints: nat)
    requires 0 < targetPoints < |s| < 2 * targetPoints
    ensures Downsample(s, targetPoints) == s
  {
    DivIsOne(|s|, targetPoints);
    ReduceByOne(s);
  }

  /** Two rows are left alone by target 1: the stride of 2 takes the first
      and the last row is appended. */
  lemma PairKept<T>(s: seq<T>)
    requires |s| == 2
    ensures Downsample(s, 1) == s
  {
    assert Step(2, 1) == 2;
    assert StridePositions(2, 2, 2) == [];
    assert ReducedPositions(2, 2) == [0, 1];
  }
}

/** Worked cases of the downsampler. */
module DownsampleExamples {
  import opened Sampling

  /** Ten rows with target 3: step 3 takes positions 0, 3, 6 and 9, and the
      last row is already among them, so four rows remain. */
  lemma TenRowsTargetThree()
    ensures Downsample([0, 1, 2, 3, 4, 5, 6, 7, 8, 9], 3) == [0, 3, 6, 9]
  {
    var s := [0, 1, 2, 3, 4, 5, 6, 7, 8, 9];
    assert Step(|s|, 3) == 3;
    assert StridePositions(12, 10, 3) == [];
    assert StridePositions(9, 10, 3) == [9];
    assert StridePositions(6, 10, 3) == [6, 9];
    assert StridePositions(3, 10, 3) == [3, 6, 9];
    assert ReducedPositions(10, 3) == [0, 3, 6, 9];
    assert Pick(s, [0, 3, 6, 9]) == [0, 3, 6, 9];
  }

  /** Eleven rows with target 3: step 3 stops at position 9, so the last row
      (position 10) is appended. */
  lemma ElevenRowsTargetThree()
    ensures Downsample([0, 1, 2, 3, 4, 5, 6, 7, 8, 9, 10], 3) == [0, 3, 6, 9, 10]
  {
    var s := [0, 1, 2, 3, 4, 5, 6, 7, 8, 9, 10];
    assert Step(|s|, 3) == 3;
    assert StridePositions(12, 11, 3) == [];
    assert StridePositions(9, 11, 3) == [9];
    assert StridePositions(6, 11, 3) == [6, 9];
    assert StridePositions(3, 11, 3) == [3, 6, 9];
    assert ReducedPositions(11, 3) == [0, 3, 6, 9, 10];
    assert Pick(s, [0, 3, 6, 9, 10]) == [0, 3, 6, 9, 10];
  }

  /** The result is not bounded by `targetPoints + 1`: five rows with
      target 3 give step 1, and all five rows are kept. */
  lemma MoreThanTargetPlusOne()
    ensures |Downsample([0, 1, 2, 3, 4], 3)| == 5
  {
    assert Step(5, 3) == 1;
    ReduceByOne([0, 1, 2, 3, 4]);
  }
}
