/** The monotonic window tracker shared by the three windowed engines: one
    index `start_index` that only moves forward while the sample it points at
    is more than the span older than the current sample. */
module Window {

  /** One sample of a series: an integer timestamp and a value (a price, or a
      volume-weighted price for the trailing-returns engine). */
  datatype Tick = Tick(timestamp: int, value: real)

  function Timestamps(series: seq<Tick>): (ts: seq<int>)
    ensures |ts| == |series|
    ensures forall k :: 0 <= k < |series| ==> ts[k] == series[k].timestamp
  {
    seq(|series|, k requires 0 <= k < |series| => series[k].timestamp)
  }

  function Values(series: seq<Tick>): (vs: seq<real>)
    ensures |vs| == |series|
    ensures forall k :: 0 <= k < |series| ==> vs[k] == series[k].value
  {
    seq(|series|, k requires 0 <= k < |series| => series[k].value)
  }

  ghost predicate NonDecreasing(ts: seq<int>)
  {
    forall a, b :: 0 <= a <= b < |ts| ==> ts[a] <= ts[b]
  }

  /** `delta * 10**6`: the window length in timestamp units. */
  function Span(delta: int): int
  {
    delta * 1000000
  }

  /** The first index at or after `from` whose timestamp is within `span` of
      `ts[i]`, found by a plain scan: the reference the tracker is proved against. */
  function FirstWithin(ts: seq<int>, i: nat, span: int, from: nat): (k: nat)
    requires from <= i < |ts| && span >= 0
    ensures from <= k <= i
    ensures ts[i] - ts[k] <= span
    ensures forall m :: from <= m < k ==> ts[i] - ts[m] > span
    decreases i - from
  {
    if ts[i] - ts[from] <= span then from else FirstWithin(ts, i, span, from + 1)
  }

  /** The oldest sample inside the trailing window of sample `i`, found by
      re-scanning from 0. */
  function WindowStart(ts: seq<int>, i: nat, span: int): (s: nat)
    requires i < |ts| && span >= 0
    ensures s <= i && ts[i] - ts[s] <= span
    ensures forall m :: 0 <= m < s ==> ts[i] - ts[m] > span
  {
    FirstWithin(ts, i, span, 0)
  }

  /** The window start is the only index that is inside the window while all
      earlier indices are outside it. */
  lemma WindowStartUnique(ts: seq<int>, i: nat, span: int, s: nat)
    requires s <= i < |ts| && span >= 0
    ensures (ts[i] - ts[s] <= span && forall m :: 0 <= m < s ==> ts[i] - ts[m] > span)
       <==> s == WindowStart(ts, i, span)
  {
  }

  /** Properties of the window start: it is at most `i`, its sample is inside
      the window, and the one before it is not. */
  lemma WindowStartBounds(ts: seq<int>, i: nat, span: int)
    requires i < |ts| && span >= 0
    ensures WindowStart(ts, i, span) <= i
    ensures ts[i] - ts[WindowStart(ts, i, span)] <= span
    ensures WindowStart(ts, i, span) > 0 ==> ts[i] - ts[WindowStart(ts, i, span) - 1] > span
  {
  }

  /** Under non-decreasing timestamps the window start never moves backwards. */
  lemma WindowStartMonotone(ts: seq<int>, i: nat, j: nat, span: int)
    requires NonDecreasing(ts) && i <= j < |ts| && span >= 0
    ensures WindowStart(ts, i, span) <= WindowStart(ts, j, span)
  {
  }

  /** Samples that fell out of the window of sample `i - 1` are out of the
      window of sample `i` as well. */
  lemma StaysOut(ts: seq<int>, i: nat, span: int)
    requires NonDecreasing(ts) && 0 < i < |ts| && span >= 0
    ensures forall k :: 0 <= k < WindowStart(ts, i - 1, span) ==> ts[i] - ts[k] > span
  {
    var s := WindowStart(ts, i - 1, span);
    forall k | 0 <= k < s
      ensures ts[i] - ts[k] > span
    {
      assert ts[i - 1] <= ts[i];
    }
  }

  /** `while (ts[i] - ts[start_index]) > delta_ms: start_index += 1`.
      Carried over from the previous sample (0 for the first one), the
      pointer only moves forward and stops exactly where a full re-scan from
      0 would. */
  method Advance(ts: seq<int>, i: nat, start: nat, span: int) returns (s: nat)
    requires NonDecreasing(ts) && i < |ts| && span >= 0
    requires start == if i == 0 then 0 else WindowStart(ts, i - 1, span)
    ensures start <= s <= i
    ensures s == WindowStart(ts, i, span)
  {
    if i > 0 {
      StaysOut(ts, i, span);
    }
    s := start;
    while ts[i] - ts[s] > span
      invariant start <= s <= i
      invariant forall k :: 0 <= k < s ==> ts[i] - ts[k] > span
      decreases i - s
    {
      s := s + 1;
    }
    WindowStartUnique(ts, i, span, s);
  }
}
