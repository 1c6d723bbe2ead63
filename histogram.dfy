/**
 * The histogram of the cursor pixel's queued values: integer bin edges from
 * ten below the smallest value to nine above the largest, numpy's histogram
 * over them, and the edge list with its last edge dropped as the bins.
 */
module Histograms {
  import opened Common

  /** `np.int32(v)` / `int(v)` of a float: truncation toward zero. */
  function Trunc(v: real): (t: int)
    ensures v >= 0.0 ==> t as real <= v < t as real + 1.0
    ensures v < 0.0 ==> t as real - 1.0 < v <= t as real
  {
    if v >= 0.0 then v.Floor else -((-v).Floor)
  }

  function RMin(a: real, b: real): real
  {
    if a <= b then a else b
  }

  function RMax(a: real, b: real): real
  {
    if a >= b then a else b
  }

  /** `np.min(a, initial = 0)`: the least of 0 and the values. */
  function MinOr0(vals: seq<real>): (m: real)
    ensures m <= 0.0
    ensures forall i :: 0 <= i < |vals| ==> m <= vals[i]
    ensures m == 0.0 || exists i :: 0 <= i < |vals| && m == vals[i]
  {
    if vals == [] then 0.0 else RMin(vals[0], MinOr0(vals[1..]))
  }

  /** `np.max(a, initial = 0)`: the greatest of 0 and the values. */
  function MaxOr0(vals: seq<real>): (m: real)
    ensures m >= 0.0
    ensures forall i :: 0 <= i < |vals| ==> vals[i] <= m
    ensures m == 0.0 || exists i :: 0 <= i < |vals| && m == vals[i]
  {
    if vals == [] then 0.0 else RMax(vals[0], MaxOr0(vals[1..]))
  }

  /** `a.min()` of a non-empty array. */
  function Least(vals: seq<real>): (m: real)
    requires |vals| > 0
    ensures forall i :: 0 <= i < |vals| ==> m <= vals[i]
    ensures exists i :: 0 <= i < |vals| && m == vals[i]
  {
    if |vals| == 1 then vals[0] else RMin(vals[0], Least(vals[1..]))
  }

  /** `a.max()` of a non-empty array. */
  function Greatest(vals: seq<real>): (m: real)
    requires |vals| > 0
    ensures forall i :: 0 <= i < |vals| ==> vals[i] <= m
    ensures exists i :: 0 <= i < |vals| && m == vals[i]
  {
    if |vals| == 1 then vals[0] else RMax(vals[0], Greatest(vals[1..]))
  }

  /** `np.arange(low - 10, high + 10, 1)`. */
  function Edges(low: int, high: int): (e: seq<int>)
    ensures |e| == if high - low + 20 > 0 then high - low + 20 else 0
    ensures forall k :: 0 <= k < |e| ==> e[k] == low - 10 + k
  {
    var n := if high - low + 20 > 0 then high - low + 20 else 0;
    seq(n, k requires 0 <= k < n => low - 10 + k)
  }

  /** How many values lie in `[lo, hi)`, or in `[lo, hi]` when `closed`. */
  function Count(vals: seq<real>, lo: real, hi: real, closed: bool): (n: nat)
    ensures n <= |vals|
  {
    if vals == [] then 0
    else (if lo <= vals[0] && (vals[0] < hi || (closed && vals[0] == hi)) then 1 else 0) + Count(vals[1..], lo, hi, closed)
  }

  /** numpy's histogram over `edges`: half-open bins, the last one closed. */
  function Counts(vals: seq<real>, edges: seq<int>): (h: seq<nat>)
    requires |edges| > 0
    ensures |h| == |edges| - 1
  {
    seq(|edges| - 1, k requires 0 <= k < |edges| - 1 =>
      Count(vals, edges[k] as real, edges[k + 1] as real, k == |edges| - 2))
  }

  /** The published histogram: the counts and the edges without the last one. */
  datatype Plot = Plot(counts: seq<nat>, bins: seq<int>)

  function PlotOf(vals: seq<real>, low: int, high: int): Plot
    requires low <= high
  {
    var edges := Edges(low, high);
    Plot(Counts(vals, edges), edges[..|edges| - 1])
  }

  /** The current copy: bounds from `initial = 0` minimum and maximum, so an empty queue is fine. */
  function HistogramOf(vals: seq<real>): (p: Plot)
  {
    PlotOf(vals, Trunc(MinOr0(vals)), Trunc(MaxOr0(vals)))
  }

  /** The older copy: `min()` and `max()` without a default raise on an empty queue. */
  function LegacyHistogramOf(vals: seq<real>): (r: Result<Plot>)
    ensures r.Err? <==> vals == []
    ensures r.Err? ==> r.fault == EmptyReduction
  {
    if vals == [] then Err(EmptyReduction)
    else
      TruncMonotone(Least(vals), Greatest(vals));
      Ok(PlotOf(vals, Trunc(Least(vals)), Trunc(Greatest(vals))))
  }

  lemma TruncMonotone(a: real, b: real)
    requires a <= b
    ensures Trunc(a) <= Trunc(b)
  {
  }

  // ---------------------------------------------------------------- counting

  function Sum(s: seq<nat>): nat
  {
    if s == [] then 0 else Sum(s[..|s| - 1]) + s[|s| - 1]
  }

  /** Counts over adjacent half-open ranges add up. */
  lemma {:induction false} CountSplit(vals: seq<real>, a: real, b: real, c: real)
    requires a <= b <= c
    ensures Count(vals, a, c, false) == Count(vals, a, b, false) + Count(vals, b, c, false)
  {
    if vals != [] {
      CountSplit(vals[1..], a, b, c);
    }
  }

  /** Values all inside `[lo, hi)` are all counted there. */
  lemma {:induction false} CountAll(vals: seq<real>, lo: real, hi: real, closed: bool)
    requires forall i :: 0 <= i < |vals| ==> lo <= vals[i] < hi
    ensures Count(vals, lo, hi, closed) == |vals|
  {
    if vals != [] {
      CountAll(vals[1..], lo, hi, closed);
    }
  }

  /** Closing a bin changes nothing when no value sits on its upper edge. */
  lemma {:induction false} CountClosed(vals: seq<real>, lo: real, hi: real)
    requires forall i :: 0 <= i < |vals| ==> vals[i] < hi
    ensures Count(vals, lo, hi, true) == Count(vals, lo, hi, false)
  {
    if vals != [] {
      CountClosed(vals[1..], lo, hi);
    }
  }

  /** The counts of the `n` unit bins `[lo + k, lo + k + 1)`. */
  function UnitBins(vals: seq<real>, lo: int, n: nat): (h: seq<nat>)
    ensures |h| == n
  {
    seq<nat>(n, k requires 0 <= k < n => Count(vals, (lo + k) as real, (lo + k + 1) as real, false))
  }

  /** The first `n` unit bins from `lo` together count the values in `[lo, lo + n)`. */
  lemma {:induction false} SumUnitBins(vals: seq<real>, lo: int, n: nat)
    ensures Sum(UnitBins(vals, lo, n)) == Count(vals, lo as real, (lo + n) as real, false)
  {
    if n == 0 {
      CountEmptyRange(vals, lo as real);
    } else {
      SumUnitBins(vals, lo, n - 1);
      assert UnitBins(vals, lo, n)[..n - 1] == UnitBins(vals, lo, n - 1);
      CountSplit(vals, lo as real, (lo + n - 1) as real, (lo + n) as real);
    }
  }

  lemma {:induction false} CountEmptyRange(vals: seq<real>, lo: real)
    ensures Count(vals, lo, lo, false) == 0
  {
    if vals != [] {
      CountEmptyRange(vals[1..], lo);
    }
  }

  /** A histogram over edges that enclose every value counts every value exactly once. */
  lemma Conserves(vals: seq<real>, low: int, high: int)
    requires low <= high
    requires forall i :: 0 <= i < |vals| ==> (low - 10) as real <= vals[i] < (high + 9) as real
    ensures Sum(PlotOf(vals, low, high).counts) == |vals|
  {
    var edges := Edges(low, high);
    var n := |edges| - 1;
    var lo := low - 10;
    CountClosed(vals, (lo + n - 1) as real, (lo + n) as real);
    assert Counts(vals, edges) == UnitBins(vals, lo, n);
    SumUnitBins(vals, lo, n);
    CountAll(vals, lo as real, (lo + n) as real, false);
  }

  /** Truncation moves a value by less than one toward zero, so the edges around `[min(0, v), max(0, v)]` enclose it. */
  lemma Encloses(v: real, low: int, high: int, lowest: real, highest: real)
    requires lowest <= v <= highest
    requires low == Trunc(lowest) && high == Trunc(highest)
    ensures (low - 10) as real <= v < (high + 9) as real
  {
  }

  // ---------------------------------------------------------------- properties

  /**
   * The current copy: the bins are the integers from `min(0, min) - 10` up
   * to `max(0, max) + 8`, one per count, and the counts add up to the number
   * of queued values.
   */
  lemma HistogramCountsAll(vals: seq<real>)
    ensures var p := HistogramOf(vals);
      && |p.bins| == |p.counts| >= 19
      && p.bins[0] == Trunc(MinOr0(vals)) - 10
      && p.bins[|p.bins| - 1] == Trunc(MaxOr0(vals)) + 8
      && Sum(p.counts) == |vals|
  {
    var low, high := Trunc(MinOr0(vals)), Trunc(MaxOr0(vals));
    forall i | 0 <= i < |vals|
      ensures (low - 10) as real <= vals[i] < (high + 9) as real
    {
      Encloses(vals[i], low, high, MinOr0(vals), MaxOr0(vals));
    }
    Conserves(vals, low, high);
  }

  /** The older copy: the same bins around `min - 10 .. max + 8` and the same conservation, for a non-empty queue. */
  lemma LegacyHistogramCountsAll(vals: seq<real>)
    requires vals != []
    ensures var p := LegacyHistogramOf(vals).value;
      && |p.bins| == |p.counts| >= 19
      && p.bins[0] == Trunc(Least(vals)) - 10
      && p.bins[|p.bins| - 1] == Trunc(Greatest(vals)) + 8
      && Sum(p.counts) == |vals|
  {
    var low, high := Trunc(Least(vals)), Trunc(Greatest(vals));
    TruncMonotone(Least(vals), Greatest(vals));
    forall i | 0 <= i < |vals|
      ensures (low - 10) as real <= vals[i] < (high + 9) as real
    {
      Encloses(vals[i], low, high, Least(vals), Greatest(vals));
    }
    Conserves(vals, low, high);
  }
}
