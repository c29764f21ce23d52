/**
 * The diagnostics tracker: live counters for connections and bytes, and a bounded FIFO of
 * latency samples from which the mean and the 50th, 95th and 99th percentiles are recomputed
 * every hundredth sample. Samples are exact reals here.
 */
module Diagnostics {
  import opened Wrappers

  const MaxLatencyWindow: nat := 1000

  datatype LatencyStats = LatencyStats(mean: real, p50: real, p95: real, p99: real)

  /** The window after enqueueing `sample` and evicting the oldest samples beyond the capacity. */
  function Slide(window: seq<real>, sample: real): (r: seq<real>)
    ensures |r| == Min(|window| + 1, MaxLatencyWindow)
    ensures r[|r| - 1] == sample
    ensures forall i :: 0 <= i < |r| - 1 ==> r[i] == window[|window| - (|r| - 1) + i]
  {
    var w := window + [sample];
    if |w| > MaxLatencyWindow then w[|w| - MaxLatencyWindow..] else w
  }

  /** Once the window is full every further sample lands on a multiple of 100, so each one recomputes. */
  lemma FullWindowRecomputes(window: seq<real>, sample: real)
    requires |window| >= MaxLatencyWindow - 1
    ensures |Slide(window, sample)| == MaxLatencyWindow && |Slide(window, sample)| % 100 == 0
  {
  }

  predicate Sorted(s: seq<real>)
  {
    forall i, j :: 0 <= i < j < |s| ==> s[i] <= s[j]
  }

  function Insert(x: real, s: seq<real>): (r: seq<real>)
    requires Sorted(s)
    ensures Sorted(r) && multiset(r) == multiset(s) + multiset{x}
    ensures |r| == |s| + 1
  {
    if s == [] then [x]
    else if x <= s[0] then
      assert s == [s[0]] + s[1..];
      [x] + s
    else
      var t := Insert(x, s[1..]);
      InsertBehindHead(x, s, t);
      [s[0]] + t
  }

  /** Putting the head of `s` in front of `x` inserted into the rest of `s` keeps the order. */
  lemma InsertBehindHead(x: real, s: seq<real>, t: seq<real>)
    requires Sorted(s) && s != [] && s[0] < x
    requires Sorted(t) && multiset(t) == multiset(s[1..]) + multiset{x}
    ensures Sorted([s[0]] + t) && multiset([s[0]] + t) == multiset(s) + multiset{x}
  {
    forall k | 0 <= k < |t|
      ensures s[0] <= t[k]
    {
      assert t[k] in multiset(t);
      if t[k] != x {
        assert t[k] in multiset(s[1..]);
        var i :| 0 <= i < |s[1..]| && s[1..][i] == t[k];
        assert s[i + 1] == t[k];
      }
    }
    assert s == [s[0]] + s[1..];
  }

  /** The sorted copy `Array.Sort` produces: ascending and a permutation of the window. */
  function SortAscending(s: seq<real>): (r: seq<real>)
    ensures Sorted(r) && multiset(r) == multiset(s) && |r| == |s|
  {
    if s == [] then []
    else
      assert s == [s[0]] + s[1..];
      Insert(s[0], SortAscending(s[1..]))
  }

  function Sum(s: seq<real>): real
  {
    if s == [] then 0.0 else s[0] + Sum(s[1..])
  }

  lemma {:induction false} SumInsert(x: real, s: seq<real>)
    requires Sorted(s)
    ensures Sum(Insert(x, s)) == x + Sum(s)
  {
    if s != [] && x > s[0] {
      SumInsert(x, s[1..]);
    }
  }

  /** Sorting does not change the sum, so the mean over the sorted copy is the mean of the window. */
  lemma {:induction false} SumSortAscending(s: seq<real>)
    ensures Sum(SortAscending(s)) == Sum(s)
  {
    if s != [] {
      SumSortAscending(s[1..]);
      SumInsert(s[0], SortAscending(s[1..]));
    }
  }

  /** The rank `p * (n - 1)` of percentile `p` among `n` sorted samples. */
  function Rank(p: real, n: nat): real
  {
    p * (n - 1) as real
  }

  function Ceiling(x: real): int
  {
    if x.Floor as real == x then x.Floor else x.Floor + 1
  }

  lemma MulNonNegative(a: real, b: real)
    requires a >= 0.0 && b >= 0.0
    ensures a * b >= 0.0
  {
  }

  lemma RankInRange(p: real, n: nat)
    requires 0.0 <= p <= 1.0 && n >= 1
    ensures 0.0 <= Rank(p, n) <= (n - 1) as real
  {
    var k := (n - 1) as real;
    MulNonNegative(p, k);
    MulNonNegative(1.0 - p, k);
    assert (1.0 - p) * k == k - p * k;
  }

  /** The index of the sample at or just below the rank of percentile `p`. */
  function RankFloor(p: real, n: nat): (k: int)
    requires 0.0 <= p <= 1.0 && n >= 1
    ensures 0 <= k <= n - 1
    ensures k as real <= Rank(p, n) < k as real + 1.0
    ensures k as real < Rank(p, n) ==> k < n - 1
  {
    RankInRange(p, n);
    Rank(p, n).Floor
  }

  /** `lo * (1 - w) + hi * w` with `0 <= w <= 1` lies between `lo` and `hi`. */
  lemma InterpolationBetween(lo: real, hi: real, w: real)
    requires 0.0 <= w <= 1.0
    ensures lo <= hi ==> lo <= lo * (1.0 - w) + hi * w <= hi
    ensures hi <= lo ==> hi <= lo * (1.0 - w) + hi * w <= lo
    ensures lo * (1.0 - w) + hi * w == Interpolate(lo, hi, w)
  {
    assert lo * (1.0 - w) + hi * w == lo + w * (hi - lo);
    if lo <= hi {
      MulNonNegative(w, hi - lo);
      MulNonNegative(1.0 - w, hi - lo);
      assert (1.0 - w) * (hi - lo) == (hi - lo) - w * (hi - lo);
    } else {
      MulNonNegative(w, lo - hi);
      MulNonNegative(1.0 - w, lo - hi);
      assert (1.0 - w) * (lo - hi) == (lo - hi) - w * (lo - hi);
      assert w * (hi - lo) == -(w * (lo - hi));
    }
  }

  function Smaller(a: real, b: real): real { if a <= b then a else b }

  function Larger(a: real, b: real): real { if a <= b then b else a }

  /**
   * `GetPercentile`: 0 for no samples, the sample itself for one; otherwise the sample at an
   * integral rank, or the linear interpolation between the samples around a fractional rank.
   */
  function GetPercentile(sorted: seq<real>, p: real): (r: real)
    requires 0.0 <= p <= 1.0
    ensures |sorted| == 0 ==> r == 0.0
    ensures |sorted| == 1 ==> r == sorted[0]
    ensures |sorted| > 1 && RankFloor(p, |sorted|) as real == Rank(p, |sorted|) ==>
              r == sorted[RankFloor(p, |sorted|)]
    ensures |sorted| > 1 && RankFloor(p, |sorted|) as real < Rank(p, |sorted|) ==>
              var lo := RankFloor(p, |sorted|);
              Smaller(sorted[lo], sorted[lo + 1]) <= r <= Larger(sorted[lo], sorted[lo + 1])
              && r == Interpolate(sorted[lo], sorted[lo + 1], Rank(p, |sorted|) - lo as real)
  {
    if |sorted| == 0 then 0.0
    else if |sorted| == 1 then sorted[0]
    else
      var index := Rank(p, |sorted|);
      var lower := RankFloor(p, |sorted|);
      var upper := Ceiling(index);
      if lower == upper then sorted[lower]
      else
        assert upper == lower + 1;
        var weight := index - lower as real;
        InterpolationBetween(sorted[lower], sorted[upper], weight);
        sorted[lower] * (1.0 - weight) + sorted[upper] * weight
  }

  /** On sorted samples every percentile lies between the smallest and the largest sample. */
  lemma PercentileWithinSamples(sorted: seq<real>, p: real)
    requires 0.0 <= p <= 1.0 && Sorted(sorted) && |sorted| > 0
    ensures sorted[0] <= GetPercentile(sorted, p) <= sorted[|sorted| - 1]
  {
  }

  /** The point a fraction `w` of the way from `lo` to `hi`. */
  function Interpolate(lo: real, hi: real, w: real): real
  {
    lo + w * (hi - lo)
  }

  /** Moving further from `lo` towards a larger `hi` never goes down. */
  lemma InterpolateMonotone(lo: real, hi: real, a: real, b: real)
    requires a <= b && lo <= hi
    ensures Interpolate(lo, hi, a) <= Interpolate(lo, hi, b)
  {
    MulNonNegative(b - a, hi - lo);
    assert (b - a) * (hi - lo) == b * (hi - lo) - a * (hi - lo);
  }

  /** A higher percentile has a rank, and a cell, at least as high. */
  lemma RankMonotone(p: real, q: real, n: nat)
    requires 0.0 <= p <= q <= 1.0 && n >= 1
    ensures Rank(p, n) <= Rank(q, n) && RankFloor(p, n) <= RankFloor(q, n)
  {
    MulNonNegative(q - p, (n - 1) as real);
    assert (q - p) * (n - 1) as real == q * (n - 1) as real - p * (n - 1) as real;
  }

  /** A percentile of sorted samples lies in the cell of its rank, interpolated along it. */
  lemma PercentileInCell(sorted: seq<real>, p: real)
    requires Sorted(sorted) && 0.0 <= p <= 1.0 && |sorted| > 1
    ensures var lo := RankFloor(p, |sorted|);
            var r := GetPercentile(sorted, p);
            sorted[lo] <= r && (lo < |sorted| - 1 ==> r <= sorted[lo + 1])
            && (lo as real == Rank(p, |sorted|) ==> r == sorted[lo])
            && (lo as real < Rank(p, |sorted|) ==>
                  r == Interpolate(sorted[lo], sorted[lo + 1], Rank(p, |sorted|) - lo as real))
  {
  }

  /** On sorted samples a higher percentile is never smaller than a lower one. */
  lemma {:induction false} PercentileMonotone(sorted: seq<real>, p: real, q: real)
    requires Sorted(sorted) && 0.0 <= p <= q <= 1.0
    ensures GetPercentile(sorted, p) <= GetPercentile(sorted, q)
  {
    var n := |sorted|;
    if n > 1 {
      RankMonotone(p, q, n);
      var rp, rq := Rank(p, n), Rank(q, n);
      var lp, lq := RankFloor(p, n), RankFloor(q, n);
      PercentileInCell(sorted, p);
      PercentileInCell(sorted, q);
      var gp, gq := GetPercentile(sorted, p), GetPercentile(sorted, q);
      assert rp <= rq && lp <= lq;
      if lp < lq {
        assert gp <= sorted[lp + 1] <= sorted[lq] <= gq;
      } else if lp as real < rp {
        assert lp < n - 1 && lq as real < rq;
        InterpolateMonotone(sorted[lp], sorted[lp + 1], rp - lp as real, rq - lp as real);
      } else {
        assert gp == sorted[lp] <= gq;
      }
    }
  }

  /** The values the percentiles take on the samples 1..10 ms. */
  lemma PercentilesOfOneToTen()
    ensures var s := [1.0, 2.0, 3.0, 4.0, 5.0, 6.0, 7.0, 8.0, 9.0, 10.0];
            GetPercentile(s, 0.5) == 5.5 && GetPercentile(s, 0.95) == 9.55
            && GetPercentile(s, 0.99) == 9.91
  {
    var s := [1.0, 2.0, 3.0, 4.0, 5.0, 6.0, 7.0, 8.0, 9.0, 10.0];
    assert Rank(0.5, 10) == 4.5 && (4.5).Floor == 4;
    assert Rank(0.95, 10) == 8.55 && (8.55).Floor == 8;
    assert Rank(0.99, 10) == 8.91 && (8.91).Floor == 8;
  }

  /** Mean and percentiles of a non-empty window, computed over its sorted copy. */
  function Summary(window: seq<real>): LatencyStats
    requires |window| > 0
  {
    var s := SortAscending(window);
    LatencyStats(Sum(s) / |s| as real, GetPercentile(s, 0.5), GetPercentile(s, 0.95),
                 GetPercentile(s, 0.99))
  }

  /** The sorted copy starts with the smallest sample of the window and ends with the largest. */
  lemma SortedExtremes(window: seq<real>)
    requires |window| > 0
    ensures forall i :: 0 <= i < |window| ==> Smallest(window) <= window[i] <= Largest(window)
  {
    var s := SortAscending(window);
    forall i | 0 <= i < |window|
      ensures s[0] <= window[i] <= s[|s| - 1]
    {
      assert window[i] in multiset(s);
    }
  }

  /** The summary's mean is the window's sum over its count, and each percentile lies among the samples. */
  lemma SummaryMeaning(window: seq<real>)
    requires |window| > 0
    ensures Summary(window).mean == Sum(window) / |window| as real
    ensures Smallest(window) <= Summary(window).p50 <= Largest(window)
    ensures Smallest(window) <= Summary(window).p95 <= Largest(window)
    ensures Smallest(window) <= Summary(window).p99 <= Largest(window)
  {
    var s := SortAscending(window);
    SumSortAscending(window);
    PercentileWithinSamples(s, 0.5);
    PercentileWithinSamples(s, 0.95);
    PercentileWithinSamples(s, 0.99);
  }

  /** The summary's percentiles are ordered: p50 <= p95 <= p99. */
  lemma {:induction false} SummaryPercentilesOrdered(window: seq<real>)
    requires |window| > 0
    ensures Summary(window).p50 <= Summary(window).p95 <= Summary(window).p99
  {
    var s := SortAscending(window);
    PercentileMonotone(s, 0.5, 0.95);
    PercentileMonotone(s, 0.95, 0.99);
  }

  function Smallest(window: seq<real>): real
    requires |window| > 0
  {
    SortAscending(window)[0]
  }

  function Largest(window: seq<real>): real
    requires |window| > 0
  {
    SortAscending(window)[|window| - 1]
  }

  class UmbralSocketEventSource {
    var connections: int
    var bytesSent: int
    var bytesReceived: int
    var latencyWindow: seq<real>
    var stats: LatencyStats

    constructor ()
      ensures connections == 0 && bytesSent == 0 && bytesReceived == 0
      ensures latencyWindow == [] && stats == LatencyStats(0.0, 0.0, 0.0, 0.0)
    {
      connections, bytesSent, bytesReceived := 0, 0, 0;
      latencyWindow, stats := [], LatencyStats(0.0, 0.0, 0.0, 0.0);
    }

    method ConnectionChanged(active: int)
      modifies this`connections
      ensures connections == active
    {
      connections := active;
    }

    method BytesSent(value: int)
      modifies this`bytesSent
      ensures bytesSent == old(bytesSent) + value
    {
      bytesSent := bytesSent + value;
    }

    method BytesReceived(value: int)
      modifies this`bytesReceived
      ensures bytesReceived == old(bytesReceived) + value
    {
      bytesReceived := bytesReceived + value;
    }

    method RecordLatency(latencyMs: real)
      modifies this`latencyWindow, this`stats
      ensures latencyWindow == Slide(old(latencyWindow), latencyMs)
      ensures stats == if |latencyWindow| % 100 == 0 then Summary(latencyWindow) else old(stats)
    {
      latencyWindow := latencyWindow + [latencyMs];
      while |latencyWindow| > MaxLatencyWindow
        invariant |latencyWindow| >= Min(|old(latencyWindow)| + 1, MaxLatencyWindow)
        invariant |latencyWindow| <= |old(latencyWindow)| + 1
        invariant latencyWindow ==
                  (old(latencyWindow) + [latencyMs])[|old(latencyWindow)| + 1 - |latencyWindow|..]
        invariant stats == old(stats) && connections == old(connections)
        invariant bytesSent == old(bytesSent) && bytesReceived == old(bytesReceived)
      {
        latencyWindow := latencyWindow[1..];
      }
      if |latencyWindow| % 100 == 0 {
        UpdateLatencyPercentiles();
      }
    }

    method UpdateLatencyPercentiles()
      modifies this`stats
      ensures stats == if latencyWindow == [] then old(stats) else Summary(latencyWindow)
    {
      var samples := latencyWindow;
      if |samples| == 0 {
        return;
      }
      var sorted := SortAscending(samples);
      stats := LatencyStats(Sum(sorted) / |sorted| as real, GetPercentile(sorted, 0.5),
                            GetPercentile(sorted, 0.95), GetPercentile(sorted, 0.99));
    }
  }
}
