/** `data_autocorrelation_cupy`, as far as the source goes: the window
    tracker, the per-lag history count `n`, and the cold-start policy that
    writes 0. The warm branch only reads two cumulative sums into locals that
    are never combined or stored, and the function has no `return`, so the
    model exposes the final contents of its local `autocorrelations` buffer
    together with, per cell, whether the cold-start branch ran. */
module Autocorrelation {
  import opened Numbers
  import opened Series
  import opened Window

  /** `n = i - start_index + 1 - lag`: samples of the window that have a
      partner `lag` positions earlier inside it. */
  function History(start: nat, i: nat, lag: nat): int
  {
    i - start + 1 - lag
  }

  /** The cold-start test `n <= 1 or start_index == 0` for one cell. */
  predicate Cold(start: nat, i: nat, lag: nat)
  {
    History(start, i, lag) <= 1 || start == 0
  }

  /** In a warm cell both reads of the (unfinished) branch are in range:
      `cum_prices_2[start_index + lag - 1]` lies in `[0, i - 2]`. */
  lemma WarmReadsInRange(start: nat, i: nat, lag: nat)
    requires !Cold(start, i, lag)
    ensures 0 <= start + lag - 1 <= i - 2
  {
  }

  /** Cell `(j, i)` takes the cold-start branch, for the window start of
      sample `i` and lag `lags[j]`. */
  predicate ColdCell(ts: seq<int>, lags: seq<nat>, span: int, j: nat, i: nat)
    requires j < |lags| && i < |ts| && span >= 0
  {
    Cold(WindowStart(ts, i, span), i, lags[j])
  }

  /** The inner `for j, lag in enumerate(lags)` loop for sample `i`: a cold cell
      is set to 0, a warm one only reads `cum_prices_2[i]`,
      `cum_prices_2[start + lag - 1]` and `cum_prices[i]`. The ghost `taken`
      records, per lag, whether the cold-start branch ran; nothing outside
      column `i` changes. */
  method SampleColumn(out: array2<real>, lags: seq<nat>, start: nat, i: nat,
                      cumPrices: seq<real>, cumPrices2: seq<real>)
    returns (ghost taken: seq<bool>)
    requires out.Length0 == |lags|
    requires out.Length1 == |cumPrices| == |cumPrices2|
    requires start <= i < out.Length1
    modifies out
    ensures forall j, k :: 0 <= j < |lags| && 0 <= k < out.Length1 && k != i ==>
      out[j, k] == old(out[j, k])
    ensures forall j :: 0 <= j < |lags| ==>
      out[j, i] == (if Cold(start, i, lags[j]) then 0.0 else old(out[j, i]))
    ensures |taken| == |lags|
    ensures forall j :: 0 <= j < |lags| ==> taken[j] == Cold(start, i, lags[j])
  {
    taken := [];
    for j := 0 to |lags|
      invariant forall j', k :: 0 <= j' < |lags| && 0 <= k < out.Length1 && (k != i || j <= j') ==>
        out[j', k] == old(out[j', k])
      invariant forall j' :: 0 <= j' < j ==>
        out[j', i] == (if Cold(start, i, lags[j']) then 0.0 else old(out[j', i]))
      invariant |taken| == j
      invariant forall j' :: 0 <= j' < j ==> taken[j'] == Cold(start, i, lags[j'])
    {
      var lag := lags[j];
      var history := i - start + 1 - lag;
      if history <= 1 || start == 0 {
        out[j, i] := 0.0;
        taken := taken + [true];
      } else {
        // sum_x_2 and sum_x are computed and then dropped, as in the source
        var sumX2 := cumPrices2[i] - cumPrices2[start + lag - 1];
        var sumX := cumPrices[i];
        taken := taken + [false];
      }
    }
  }

  /** The engine: the final contents of the local `autocorrelations` buffer,
      and (ghost) which cells took the cold-start branch. */
  method DataAutocorrelation(series: seq<Tick>, lags: seq<nat>, timeWindow: int)
    returns (acf: seq<seq<real>>, ghost cold: seq<seq<bool>>)
    requires timeWindow >= 0
    requires NonDecreasing(Timestamps(series))
    ensures |acf| == |lags| && |cold| == |lags|
    ensures forall j :: 0 <= j < |lags| ==> |acf[j]| == |series| && |cold[j]| == |series|
    ensures forall j, i :: 0 <= j < |lags| && 0 <= i < |series| ==> acf[j][i] == 0.0
    ensures forall j, i :: 0 <= j < |lags| && 0 <= i < |series| ==>
      cold[j][i] == ColdCell(Timestamps(series), lags, Span(timeWindow), j, i)
  {
    var n := |series|;
    var ts := Timestamps(series);
    var prices := Values(series);
    var span := Span(timeWindow);
    var cumPrices := PrefixSum(prices);
    var cumPrices2 := PrefixSum(seq(n, k requires 0 <= k < n => prices[k] * prices[k]));
    var out := new real[|lags|, n]((_, _) => 0.0);
    cold := seq(|lags|, _ => []);
    var start := 0;
    for i := 0 to n
      invariant start == if i == 0 then 0 else WindowStart(ts, i - 1, span)
      invariant forall j, k :: 0 <= j < |lags| && 0 <= k < n ==> out[j, k] == 0.0
      invariant |cold| == |lags|
      invariant forall j :: 0 <= j < |lags| ==> |cold[j]| == i
      invariant forall j, k :: 0 <= j < |lags| && 0 <= k < i ==> cold[j][k] == ColdCell(ts, lags, span, j, k)
    {
      start := Advance(ts, i, start, span);
      ghost var taken := SampleColumn(out, lags, start, i, cumPrices, cumPrices2);
      cold := seq(|lags|, j requires 0 <= j < |lags| => cold[j] + [taken[j]]);
    }
    acf := seq(|lags|, j requires 0 <= j < |lags| reads out => seq(n, k requires 0 <= k < n reads out => out[j, k]));
  }
}
