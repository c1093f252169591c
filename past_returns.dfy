/** `cupy_calculate_past_returns`: for each sample, the relative change (in
    units of 10^-5) of its value against the oldest sample of its trailing window. */
module PastReturns {
  import opened Numbers
  import opened Window

  /** `(v / base - 1) * 10**5`. */
  function Return(v: real, base: real): Float
  {
    match Div(v, base)
    case Finite(q) => Finite((q - 1.0) * 100000.0)
    case NaNOrInf => NaNOrInf
  }

  /** For a non-zero base the return is finite, and it is zero exactly when
      the value equals the base, positive exactly when it is larger. */
  lemma ReturnSign(v: real, base: real)
    requires base > 0.0
    ensures Return(v, base).Finite?
    ensures Return(v, base).value == 0.0 <==> v == base
    ensures Return(v, base).value > 0.0 <==> v > base
  {
    var q := v / base;
    assert q * base == v;
    if v > base {
      assert q > 1.0;
    } else if v < base {
      assert q < 1.0;
    }
  }

  /** A window holding only the current sample gives exactly 0, unless that
      value is 0 (then `0 / 0` is NaN). */
  lemma ReturnOfItself(v: real)
    ensures v != 0.0 ==> Return(v, v) == Finite(0.0)
    ensures v == 0.0 ==> Return(v, v) == NaNOrInf
  {
  }

  /** The engine's output for sample `i`: its return over the window start. */
  function PastReturnAt(trades: seq<Tick>, delta: int, i: nat): Float
    requires delta >= 0 && i < |trades|
  {
    Return(trades[i].value, trades[WindowStart(Timestamps(trades), i, Span(delta))].value)
  }

  /** The engine: one forward pass with the window tracker, writing
      `past_returns[i]` once per sample into a zero-initialised buffer. A
      sample alone in its window gets exactly 0. */
  method CalculatePastReturns(trades: seq<Tick>, delta: int) returns (r: seq<Float>)
    requires delta >= 0
    requires NonDecreasing(Timestamps(trades))
    ensures |r| == |trades|
    ensures forall i :: 0 <= i < |trades| ==> r[i] == PastReturnAt(trades, delta, i)
    ensures forall i :: 0 <= i < |trades| && WindowStart(Timestamps(trades), i, Span(delta)) == i ==>
      (trades[i].value != 0.0 ==> r[i] == Finite(0.0))
  {
    var n := |trades|;
    var ts := Timestamps(trades);
    var span := Span(delta);
    ghost var expected := seq(n, k requires 0 <= k < n => PastReturnAt(trades, delta, k));
    var out := new Float[n](_ => Finite(0.0));
    var start := 0;
    for i := 0 to n
      invariant start == if i == 0 then 0 else WindowStart(ts, i - 1, span)
      invariant forall k :: 0 <= k < i ==> out[k] == expected[k]
    {
      start := Advance(ts, i, start, span);
      out[i] := Return(trades[i].value, trades[start].value);
    }
    r := out[..];
    forall i | 0 <= i < n && WindowStart(ts, i, span) == i
      ensures trades[i].value != 0.0 ==> r[i] == Finite(0.0)
    {
      ReturnOfItself(trades[i].value);
    }
  }
}
