/** Numeric-series utilities: cumulative sums (`cp.cumsum`), the zero-filling
    shift `shift_cupy`, and the prefix sums of lagged products that the
    windowed engines difference. */
module Series {

  /** Sum of a sequence, left to right. */
  function Sum(s: seq<real>): real
  {
    if s == [] then 0.0 else s[0] + Sum(s[1..])
  }

  lemma {:induction false} SumConcat(s: seq<real>, t: seq<real>)
    ensures Sum(s + t) == Sum(s) + Sum(t)
  {
    if s == [] {
      assert s + t == t;
    } else {
      assert (s + t)[1..] == s[1..] + t;
      SumConcat(s[1..], t);
    }
  }

  /** Running left-to-right accumulation starting from `acc`. */
  function Accumulate(x: seq<real>, acc: real): (p: seq<real>)
    ensures |p| == |x|
    ensures forall i :: 0 <= i < |x| ==> p[i] == acc + Sum(x[..i + 1])
    decreases |x|
  {
    if x == [] then []
    else
      var rest := Accumulate(x[1..], acc + x[0]);
      assert forall i :: 0 < i < |x| ==> x[..i + 1][1..] == x[1..][..i];
      [acc + x[0]] + rest
  }

  /** `cp.cumsum(x)`: entry `i` is the sum of `x[0..i]` inclusive. */
  function PrefixSum(x: seq<real>): (p: seq<real>)
    ensures |p| == |x|
    ensures forall i :: 0 <= i < |x| ==> p[i] == Sum(x[..i + 1])
  {
    Accumulate(x, 0.0)
  }

  /** The difference of two cumulative-sum entries is the sum over the index
      range between them; the windowed engines rely on nothing else. */
  lemma PrefixDifference(x: seq<real>, a: nat, b: nat)
    requires 0 < a <= b + 1 <= |x|
    ensures PrefixSum(x)[b] - PrefixSum(x)[a - 1] == Sum(x[a..b + 1])
  {
    assert x[..b + 1] == x[..a] + x[a..b + 1];
    SumConcat(x[..a], x[a..b + 1]);
  }

  /** A run of `n` zeros. */
  function Zeros(n: nat): (z: seq<real>)
    ensures |z| == n
    ensures forall k :: 0 <= k < n ==> z[k] == 0.0
  {
    seq(n, _ => 0.0)
  }

  /** Value of `shift_cupy(xs, n)`, written as its two slice assignments:
      `e[:n] = 0.0` and `e[n:] = xs[:-n]` (clipped to the length of `xs`). */
  function Shifted(xs: seq<real>, n: nat): (r: seq<real>)
    ensures |r| == |xs|
    ensures forall k :: 0 <= k < |xs| ==> r[k] == if k < n then 0.0 else xs[k - n]
  {
    var m := if n < |xs| then n else |xs|;
    Zeros(m) + xs[..|xs| - m]
  }

  /** `shift_cupy` (the live, second definition): a fresh buffer, a plain copy
      when `n == 0`, otherwise `n` leading zeros followed by `xs` delayed by `n`. */
  method Shift(xs: array<real>, n: nat) returns (e: array<real>)
    ensures fresh(e)
    ensures e[..] == Shifted(xs[..], n)
  {
    if n == 0 {
      e := new real[xs.Length](k requires 0 <= k < xs.Length reads xs => xs[k]);
      return;
    }
    e := new real[xs.Length];
    var m := if n < xs.Length then n else xs.Length;
    var k := 0;
    // e[:n] = 0.0
    while k < m
      invariant 0 <= k <= m
      invariant forall q :: 0 <= q < k ==> e[q] == 0.0
    {
      e[k] := 0.0;
      k := k + 1;
    }
    // e[n:] = xs[:-n]
    while k < xs.Length
      invariant m <= k <= xs.Length
      invariant forall q :: 0 <= q < m ==> e[q] == 0.0
      invariant forall q :: m <= q < k ==> e[q] == xs[q - n]
    {
      e[k] := xs[k - n];
      k := k + 1;
    }
  }

  /** `prices * shift_cupy(prices, lag)`: entry `k` is `p[k] * p[k - lag]`, or 0 for `k < lag`. */
  function LagProducts(p: seq<real>, lag: nat): (r: seq<real>)
    ensures |r| == |p|
  {
    var s := Shifted(p, lag);
    seq(|p|, k requires 0 <= k < |p| => p[k] * s[k])
  }

  /** Entry `k` of the lag products is `p[k] * p[k - lag]`, or 0 while `k < lag`. */
  lemma LagProductsAt(p: seq<real>, lag: nat, k: nat)
    requires k < |p|
    ensures LagProducts(p, lag)[k] == if k < lag then 0.0 else p[k] * p[k - lag]
  {
  }

  /** Reference sum of lagged products `p[k] * p[k - lag]` over `k` in `[lo, hi)`. */
  function LagSum(p: seq<real>, lag: nat, lo: nat, hi: nat): real
    requires lag <= lo && hi <= |p|
    decreases hi
  {
    if hi <= lo then 0.0 else LagSum(p, lag, lo, hi - 1) + p[hi - 1] * p[hi - 1 - lag]
  }

  lemma {:induction false} SumOfLagProducts(p: seq<real>, lag: nat, lo: nat, hi: nat)
    requires lag <= lo <= hi <= |p|
    ensures Sum(LagProducts(p, lag)[lo..hi]) == LagSum(p, lag, lo, hi)
    decreases hi
  {
    var lp := LagProducts(p, lag);
    if hi == lo {
      assert lp[lo..hi] == [];
    } else {
      SumOfLagProducts(p, lag, lo, hi - 1);
      assert lp[lo..hi] == lp[lo..hi - 1] + [lp[hi - 1]];
      SumConcat(lp[lo..hi - 1], [lp[hi - 1]]);
      assert lp[hi - 1] == p[hi - 1] * p[hi - 1 - lag];
    }
  }

  /** `lag_prices_prod[lag][i] - lag_prices_prod[lag][lo - 1]` is the sum of
      `p[k] * p[k - lag]` for `k` in `lo..i` inclusive, provided the window
      starts at or after the lag (`lo >= lag`); for lag 0 it is the sum of squares. */
  lemma LagWindowSum(p: seq<real>, lag: nat, lo: nat, i: nat)
    requires lag <= lo && 0 < lo <= i + 1 && i < |p|
    ensures PrefixSum(LagProducts(p, lag))[i] - PrefixSum(LagProducts(p, lag))[lo - 1]
         == LagSum(p, lag, lo, i + 1)
  {
    PrefixDifference(LagProducts(p, lag), lo, i);
    SumOfLagProducts(p, lag, lo, i + 1);
  }

  /** `cp.cumsum(prices * shift_cupy(prices, lag))`. */
  method LagPrefixSums(prices: array<real>, lag: nat) returns (t: seq<real>)
    ensures |t| == prices.Length
    ensures t == PrefixSum(LagProducts(prices[..], lag))
  {
    var shifted := Shift(prices, lag);
    var prod := seq(prices.Length, k requires 0 <= k < prices.Length reads prices, shifted => prices[k] * shifted[k]);
    forall k | 0 <= k < prices.Length
      ensures prod[k] == LagProducts(prices[..], lag)[k]
    {
      assert shifted[k] == shifted[..][k];
    }
    assert prod == LagProducts(prices[..], lag);
    t := PrefixSum(prod);
  }
}
