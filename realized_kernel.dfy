/** `data_realized_kernel_cupy`: for each sample, a Parzen-weighted sum of
    windowed lagged autocovariances, read off prefix sums of lagged products. */
module RealizedKernel {
  import opened Numbers
  import opened Series
  import opened Window
  import opened Parzen

  /** Lags `1..m` of the estimate: `2 * w[j - 1]` times the sum of
      `p[k] * p[k - j]` over `k` in `s + j .. i`. */
  function WeightedLags(p: seq<real>, w: seq<real>, s: nat, i: nat, m: nat): real
    requires i < |p| && m <= |w| && s + m <= i + 1
  {
    if m == 0 then 0.0
    else WeightedLags(p, w, s, i, m - 1) + 2.0 * w[m - 1] * LagSum(p, m, s + m, i + 1)
  }

  /** Reference value of the estimate at sample `i` with window start `s`,
      written with direct sums: 0 on a cold start (`s == 0`), otherwise the
      windowed sum of squares plus the weighted lags up to
      `min(i + 1 - s, H)`, where `H == |w|`. */
  function KernelEstimate(p: seq<real>, w: seq<real>, s: nat, i: nat): real
    requires s <= i < |p|
  {
    if s == 0 then 0.0
    else LagSum(p, 0, s, i + 1) + WeightedLags(p, w, s, i, Min(i + 1 - s, |w|))
  }

  /** `lag_prices_prod`: one prefix-sum table per lag `0..H`. */
  method LagTables(prices: array<real>, H: nat) returns (tables: seq<seq<real>>)
    ensures |tables| == H + 1
    ensures forall l :: 0 <= l <= H ==> tables[l] == PrefixSum(LagProducts(prices[..], l))
  {
    tables := [];
    var lag := 0;
    while lag <= H
      invariant lag <= H + 1
      invariant |tables| == lag
      invariant forall l :: 0 <= l < lag ==> tables[l] == PrefixSum(LagProducts(prices[..], l))
    {
      var t := LagPrefixSums(prices, lag);
      tables := tables + [t];
      lag := lag + 1;
    }
  }

  /** Every prefix-table entry a warm sample reads lies in `[0, i]`: the
      lower reads `start - 1` and `start + j - 1` never precede entry 0 and
      never look ahead of the current sample. */
  lemma KernelReadsInRange(start: nat, i: nat, H: nat, j: nat)
    requires 0 < start <= i && 1 <= j <= Min(i + 1 - start, H)
    ensures 0 <= start - 1 && start + j - 1 <= i
  {
  }

  /** The estimate for one sample: 0 on a cold start, otherwise accumulated
      from the prefix-sum tables exactly as the source's inner loop does. */
  method WindowEstimate(p: seq<real>, tables: seq<seq<real>>, w: seq<real>, start: nat, i: nat)
    returns (res: real)
    requires start <= i < |p|
    requires |tables| == |w| + 1
    requires forall l :: 0 <= l <= |w| ==> tables[l] == PrefixSum(LagProducts(p, l))
    ensures res == KernelEstimate(p, w, start, i)
  {
    if start == 0 {
      return 0.0;
    }
    var range := Min(i + 1 - start, |w|);
    LagWindowSum(p, 0, start, i);
    res := tables[0][i] - tables[0][start - 1];
    var j := 1;
    while j <= range
      invariant 1 <= j <= range + 1
      invariant res == LagSum(p, 0, start, i + 1) + WeightedLags(p, w, start, i, j - 1)
    {
      KernelReadsInRange(start, i, |w|, j);
      LagWindowSum(p, j, start + j, i);
      var d := tables[j][i] - tables[j][start + j - 1];
      assert d == LagSum(p, j, start + j, i + 1);
      res := res + 2.0 * w[j - 1] * d;
      j := j + 1;
    }
  }

  /** The forward pass: the window tracker and one estimate per sample. */
  method EstimateAll(p: seq<real>, ts: seq<int>, tables: seq<seq<real>>, w: seq<real>, span: int)
    returns (rk: seq<real>)
    requires NonDecreasing(ts) && |ts| == |p| && span >= 0
    requires |tables| == |w| + 1
    requires forall l :: 0 <= l <= |w| ==> tables[l] == PrefixSum(LagProducts(p, l))
    ensures |rk| == |p|
    ensures forall i :: 0 <= i < |p| ==> rk[i] == KernelEstimate(p, w, WindowStart(ts, i, span), i)
  {
    var n := |p|;
    ghost var expected := seq(n, k requires 0 <= k < n => KernelEstimate(p, w, WindowStart(ts, k, span), k));
    var out := new real[n](_ => 0.0);
    var start := 0;
    for i := 0 to n
      invariant start == if i == 0 then 0 else WindowStart(ts, i - 1, span)
      invariant forall k :: 0 <= k < i ==> out[k] == expected[k]
    {
      start := Advance(ts, i, start, span);
      var res := WindowEstimate(p, tables, w, start, i);
      out[i] := res;
    }
    rk := out[..];
  }

  /** The engine: the lag tables, the kernel weights, then one forward pass
      with the window tracker. Every sample gets the kernel estimate over its
      window, which is 0 on a cold start (window reaching back to sample 0). */
  method DataRealizedKernel(series: seq<Tick>, H: nat, timeWindow: int) returns (rk: seq<real>)
    requires timeWindow >= 0
    requires NonDecreasing(Timestamps(series))
    ensures |rk| == |series|
    ensures forall i :: 0 <= i < |series| ==>
      rk[i] == KernelEstimate(Values(series), KernelWeights(H), WindowStart(Timestamps(series), i, Span(timeWindow)), i)
    ensures forall i :: 0 <= i < |series| && WindowStart(Timestamps(series), i, Span(timeWindow)) == 0 ==> rk[i] == 0.0
  {
    var n := |series|;
    var p := Values(series);
    var prices := new real[n](k requires 0 <= k < n => p[k]);
    assert prices[..] == p;
    var tables := LagTables(prices, H);
    var weights := KernelWeights(H);
    rk := EstimateAll(p, Timestamps(series), tables, weights, Span(timeWindow));
  }

  /** With bandwidth 1 the single lag weight is `Kernel(1) = 0`, so the
      estimate is the plain windowed sum of squared prices. */
  lemma BandwidthOne(p: seq<real>, s: nat, i: nat)
    requires 0 < s <= i < |p|
    ensures KernelEstimate(p, KernelWeights(1), s, i) == LagSum(p, 0, s, i + 1)
  {
    var w := KernelWeights(1);
    KernelWeightsRange(1);
    assert Min(i + 1 - s, |w|) == 1;
    assert WeightedLags(p, w, s, i, 1) == 0.0;
  }
}
