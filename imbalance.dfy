/** The order-book imbalance calculator: `compute_imbalances` (eligible
    amounts, their positional median, and a walk of each side of the book),
    `compute_improved_imbalance` (de-interleaving one flat snapshot row) and
    `cupy_imb` (one result per row). */
module Imbalance {
  import opened Numbers
  import opened Series

  datatype Side = Ask | Bid

  /** The Python exceptions the calculator can raise (all `IndexError`s). */
  datatype BookError =
    | EmptySnapshot           // `ob_snapshot[0]` on an empty row
    | MissingAmount(side: Side)  // an eligible level whose amount slot is absent
    | NoEligibleLevel(side: Side)  // median of an empty eligible list

  datatype Result<T> = Ok(value: T) | Err(error: BookError)

  /** `(ask_imbalance, bid_imbalance)`. */
  datatype BookImbalance = BookImbalance(ask: Float, bid: Float)

  /** One output tuple `(ts, ask_imbalance, bid_imbalance)`. */
  datatype RowImbalance = RowImbalance(ts: real, ask: Float, bid: Float)

  /** The 5% band around the best price: asks strictly below `1.05 * best`,
      bids strictly above `0.95 * best`. */
  predicate Eligible(side: Side, best: real, price: real)
  {
    match side
    case Ask => price < best * 1.05
    case Bid => price > best * 0.95
  }

  /** With a positive best price the best level itself is always eligible. */
  lemma BestLevelEligible(side: Side, best: real)
    requires best > 0.0
    ensures Eligible(side, best, best)
  {
  }

  /** Every eligible level at or after `from` has an amount. */
  predicate AmountsCover(side: Side, best: real, prices: seq<real>, amounts: seq<real>, from: nat)
  {
    forall k :: from <= k < |prices| && Eligible(side, best, prices[k]) ==> k < |amounts|
  }

  /** `[amounts[i] for i, v in enumerate(prices) if Eligible(v)]`, from level `from` on. */
  function EligibleFrom(side: Side, best: real, prices: seq<real>, amounts: seq<real>, from: nat): (r: seq<real>)
    requires from <= |prices|
    requires AmountsCover(side, best, prices, amounts, from)
    ensures |r| <= |prices| - from
    ensures |r| == 0 <==> forall k :: from <= k < |prices| ==> !Eligible(side, best, prices[k])
    ensures from < |prices| && Eligible(side, best, prices[from]) ==> |r| > 0 && r[0] == amounts[from]
    ensures forall x :: x in r ==> exists k :: from <= k < |prices| && k < |amounts|
                                    && Eligible(side, best, prices[k]) && amounts[k] == x
    decreases |prices| - from
  {
    if from == |prices| then []
    else
      var rest := EligibleFrom(side, best, prices, amounts, from + 1);
      if Eligible(side, best, prices[from]) then [amounts[from]] + rest else rest
  }

  /** The indices of the levels at or after `from` that lie in the band, in
      increasing order: exactly the eligible ones, each once. */
  function EligibleIndices(side: Side, best: real, prices: seq<real>, from: nat): (ix: seq<nat>)
    requires from <= |prices|
    ensures forall t :: 0 <= t < |ix| ==> from <= ix[t] < |prices| && Eligible(side, best, prices[ix[t]])
    ensures forall t, u :: 0 <= t < u < |ix| ==> ix[t] < ix[u]
    ensures forall k {:trigger k in ix} :: from <= k < |prices| && Eligible(side, best, prices[k]) ==> k in ix
    decreases |prices| - from
  {
    if from == |prices| then []
    else
      var rest := EligibleIndices(side, best, prices, from + 1);
      if Eligible(side, best, prices[from]) then [from] + rest else rest
  }

  /** The eligible list holds, in level order, the amount of every eligible
      level and nothing else: entry `t` is the amount of the `t`-th eligible level. */
  lemma {:induction false} EligibleFromAtIndices(side: Side, best: real, prices: seq<real>, amounts: seq<real>, from: nat)
    requires from <= |prices|
    requires AmountsCover(side, best, prices, amounts, from)
    ensures var r, ix := EligibleFrom(side, best, prices, amounts, from), EligibleIndices(side, best, prices, from);
      |r| == |ix| && forall t :: 0 <= t < |r| ==> ix[t] < |amounts| && r[t] == amounts[ix[t]]
    decreases |prices| - from
  {
    if from < |prices| {
      EligibleFromAtIndices(side, best, prices, amounts, from + 1);
    }
  }

  /** The eligible amounts of one side, the band taken around `prices[0]`. */
  function EligibleAmounts(side: Side, prices: seq<real>, amounts: seq<real>): seq<real>
    requires |prices| > 0 ==> AmountsCover(side, prices[0], prices, amounts, 0)
  {
    if |prices| == 0 then [] else EligibleFrom(side, prices[0], prices, amounts, 0)
  }

  /** With a positive best price the eligible list is never empty and starts
      with the best level's amount. */
  lemma EligibleStartsWithBest(side: Side, prices: seq<real>, amounts: seq<real>)
    requires |prices| > 0 && prices[0] > 0.0
    requires AmountsCover(side, prices[0], prices, amounts, 0)
    ensures |EligibleAmounts(side, prices, amounts)| > 0
    ensures EligibleAmounts(side, prices, amounts)[0] == amounts[0]
  {
    BestLevelEligible(side, prices[0]);
  }

  /** The source's median: the middle element of the eligible list for an odd
      length, the mean of the two middle elements for an even length. The
      list is taken in level order; it is not sorted first. */
  function Median(xs: seq<real>): (m: real)
    requires |xs| > 0
    ensures var lo, hi := xs[(|xs| - 1) / 2], xs[|xs| / 2];
      (lo <= m <= hi) || (hi <= m <= lo)
  {
    var mid := |xs| / 2;
    if |xs| % 2 == 1 then xs[mid] else (xs[mid] + xs[mid - 1]) / 2.0
  }

  ghost predicate Ascending(xs: seq<real>)
  {
    forall a, b :: 0 <= a <= b < |xs| ==> xs[a] <= xs[b]
  }

  /** For a list that happens to be sorted the positional median is a true
      median: at least half the elements lie on each side of it. */
  lemma MedianOfSorted(xs: seq<real>)
    requires |xs| > 0 && Ascending(xs)
    ensures forall k :: 0 <= k < (|xs| + 1) / 2 ==> xs[k] <= Median(xs)
    ensures forall k :: |xs| / 2 <= k < |xs| ==> Median(xs) <= xs[k]
  {
    var n := |xs|;
    assert xs[(n - 1) / 2] <= xs[n / 2];
  }

  /** `(ask_median + bid_median) / 2`: the size walked on both sides. */
  function TradeSize(askEligible: seq<real>, bidEligible: seq<real>): real
    requires |askEligible| > 0 && |bidEligible| > 0
  {
    (Median(askEligible) + Median(bidEligible)) / 2.0
  }

  /** Money spent walking one side for `size` units: each level is taken
      whole while it is smaller than what remains, then the remainder is taken
      from the level that covers it and the walk stops (remaining size 0). */
  function BookCost(prices: seq<real>, amounts: seq<real>, size: real): real
    requires |amounts| <= |prices|
    decreases |amounts|
  {
    if |amounts| == 0 || size == 0.0 then 0.0
    else if amounts[0] < size then prices[0] * amounts[0] + BookCost(prices[1..], amounts[1..], size - amounts[0])
    else prices[0] * size
  }

  /** The `for i, amount in enumerate(amounts)` walk of one side of the book,
      with the `cp.isclose(size, 0)` stop test read as `size == 0`. */
  method WalkBook(prices: seq<real>, amounts: seq<real>, size0: real) returns (money: real)
    requires |amounts| <= |prices|
    ensures money == BookCost(prices, amounts, size0)
  {
    var size := size0;
    money := 0.0;
    var i := 0;
    while i < |amounts|
      invariant 0 <= i <= |amounts|
      invariant money + BookCost(prices[i..], amounts[i..], size) == BookCost(prices, amounts, size0)
    {
      if size == 0.0 {
        break;
      }
      assert prices[i..][1..] == prices[i + 1..] && amounts[i..][1..] == amounts[i + 1..];
      if amounts[i] < size {
        size := size - amounts[i];
        money := money + prices[i] * amounts[i];
      } else {
        money := money + prices[i] * size;
        size := 0.0;
      }
      i := i + 1;
    }
  }

  /** When the best level alone covers the size, only it is used. */
  lemma BestLevelCovers(prices: seq<real>, amounts: seq<real>, size: real)
    requires 0 < |amounts| <= |prices| && amounts[0] >= size
    ensures BookCost(prices, amounts, size) == prices[0] * size
  {
  }

  /** If every level is priced at least `c` and the levels hold enough in
      total, the walk costs at least `c` per unit. */
  lemma {:induction false} BookCostAtLeast(prices: seq<real>, amounts: seq<real>, size: real, c: real)
    requires |amounts| <= |prices|
    requires forall k :: 0 <= k < |amounts| ==> amounts[k] >= 0.0 && prices[k] >= c
    requires 0.0 <= size <= Sum(amounts)
    ensures BookCost(prices, amounts, size) >= c * size
    decreases |amounts|
  {
    if |amounts| == 0 || size == 0.0 {
    } else if amounts[0] < size {
      BookCostAtLeast(prices[1..], amounts[1..], size - amounts[0], c);
      NonNegMul(prices[0] - c, amounts[0]);
      assert (prices[0] - c) * amounts[0] == prices[0] * amounts[0] - c * amounts[0];
      assert c * (size - amounts[0]) == c * size - c * amounts[0];
    } else {
      NonNegMul(prices[0] - c, size);
      assert (prices[0] - c) * size == prices[0] * size - c * size;
    }
  }

  /** If every level is priced at most `c` and the levels hold enough in
      total, the walk costs at most `c` per unit. */
  lemma {:induction false} BookCostAtMost(prices: seq<real>, amounts: seq<real>, size: real, c: real)
    requires |amounts| <= |prices|
    requires forall k :: 0 <= k < |amounts| ==> amounts[k] >= 0.0 && prices[k] <= c
    requires 0.0 <= size <= Sum(amounts)
    ensures BookCost(prices, amounts, size) <= c * size
    decreases |amounts|
  {
    if |amounts| == 0 || size == 0.0 {
    } else if amounts[0] < size {
      BookCostAtMost(prices[1..], amounts[1..], size - amounts[0], c);
      NonNegMul(c - prices[0], amounts[0]);
      assert (c - prices[0]) * amounts[0] == c * amounts[0] - prices[0] * amounts[0];
      assert c * (size - amounts[0]) == c * size - c * amounts[0];
    } else {
      NonNegMul(c - prices[0], size);
      assert (c - prices[0]) * size == c * size - prices[0] * size;
    }
  }

  /** `((money / median) / ask_prices[0] - 1) * 10**5`. */
  function AskImbalance(money: real, median: real, best: real): Float
  {
    match Div(money, median)
    case NaNOrInf => NaNOrInf
    case Finite(avg) =>
      match Div(avg, best)
      case NaNOrInf => NaNOrInf
      case Finite(q) => Finite((q - 1.0) * 100000.0)
  }

  /** `(bid_prices[0] / (money / median) - 1) * 10**5`. */
  function BidImbalance(money: real, median: real, best: real): Float
  {
    match Div(money, median)
    case NaNOrInf => NaNOrInf
    case Finite(avg) =>
      match Div(best, avg)
      case NaNOrInf => NaNOrInf
      case Finite(q) => Finite((q - 1.0) * 100000.0)
  }

  /** When the best level covers the trade size, that side's imbalance is
      exactly 0: the average price paid is the best price. */
  lemma BestLevelCoversGivesZero(prices: seq<real>, amounts: seq<real>, size: real)
    requires 0 < |amounts| <= |prices| && amounts[0] >= size
    requires size != 0.0 && prices[0] != 0.0
    ensures AskImbalance(BookCost(prices, amounts, size), size, prices[0]) == Finite(0.0)
    ensures BidImbalance(BookCost(prices, amounts, size), size, prices[0]) == Finite(0.0)
  {
    BestLevelCovers(prices, amounts, size);
    var best := prices[0];
    var money := best * size;
    assert BookCost(prices, amounts, size) == money;
    CancelQuotient(best, size);
    assert money / size == best;
    assert Div(money, size) == Finite(best);
    assert best / best == 1.0;
    assert Div(best, best) == Finite(1.0);
    assert AskImbalance(money, size, best) == Finite(0.0);
    assert BidImbalance(money, size, best) == Finite(0.0);
  }

  /** On an ask book sorted by increasing price with enough depth, the ask
      imbalance is finite and non-negative: the walk never pays less than the best ask. */
  lemma AskImbalanceNonNegative(prices: seq<real>, amounts: seq<real>, size: real)
    requires 0 < |amounts| <= |prices| && prices[0] > 0.0
    requires forall k :: 0 <= k < |amounts| ==> amounts[k] >= 0.0 && prices[k] >= prices[0]
    requires 0.0 < size <= Sum(amounts)
    ensures AskImbalance(BookCost(prices, amounts, size), size, prices[0]).Finite?
    ensures AskImbalance(BookCost(prices, amounts, size), size, prices[0]).value >= 0.0
  {
    var money := BookCost(prices, amounts, size);
    BookCostAtLeast(prices, amounts, size, prices[0]);
    QuotientAtLeast(money, size, prices[0]);
    var avg := money / size;
    QuotientAtLeast(avg, prices[0], 1.0);
  }

  /** On a bid book sorted by decreasing positive price with enough depth, the
      bid imbalance is finite and non-negative: the walk never receives more than the best bid. */
  lemma BidImbalanceNonNegative(prices: seq<real>, amounts: seq<real>, size: real)
    requires 0 < |amounts| <= |prices|
    requires forall k :: 0 <= k < |amounts| ==> amounts[k] >= 0.0 && 0.0 < prices[k] <= prices[0]
    requires 0.0 < size <= Sum(amounts)
    ensures BidImbalance(BookCost(prices, amounts, size), size, prices[0]).Finite?
    ensures BidImbalance(BookCost(prices, amounts, size), size, prices[0]).value >= 0.0
  {
    var money := BookCost(prices, amounts, size);
    BookCostAtMost(prices, amounts, size, prices[0]);
    assert forall k :: 0 <= k < |amounts| ==> prices[k] > 0.0;
    BookCostPositive(prices, amounts, size);
    QuotientAtMost(money, size, prices[0]);
    QuotientPositive(money, size);
    var avg := money / size;
    QuotientAtLeast(prices[0], avg, 1.0);
  }

  /** With positive prices, non-negative amounts and enough depth, a positive
      size costs a positive amount of money. */
  lemma {:induction false} BookCostPositive(prices: seq<real>, amounts: seq<real>, size: real)
    requires |amounts| <= |prices|
    requires forall k :: 0 <= k < |amounts| ==> amounts[k] >= 0.0 && prices[k] > 0.0
    requires 0.0 < size <= Sum(amounts)
    ensures BookCost(prices, amounts, size) > 0.0
    decreases |amounts|
  {
    if amounts[0] < size {
      BookCostPositive(prices[1..], amounts[1..], size - amounts[0]);
      NonNegMul(prices[0], amounts[0]);
    } else {
      PosMul(prices[0], size);
    }
  }

  /** `compute_imbalances` as a function of the four level arrays: the
      exceptions in the order the source raises them (ask list built, ask
      median taken, then the same for bids), then both walks and both formulas. */
  function Imbalances(askP: seq<real>, askA: seq<real>, bidP: seq<real>, bidA: seq<real>): Result<BookImbalance>
    requires |askA| <= |askP| && |bidA| <= |bidP|
  {
    if |askP| > 0 && !AmountsCover(Ask, askP[0], askP, askA, 0) then Err(MissingAmount(Ask))
    else
      var askE := EligibleAmounts(Ask, askP, askA);
      if |askE| == 0 then Err(NoEligibleLevel(Ask))
      else if |bidP| > 0 && !AmountsCover(Bid, bidP[0], bidP, bidA, 0) then Err(MissingAmount(Bid))
      else
        var bidE := EligibleAmounts(Bid, bidP, bidA);
        if |bidE| == 0 then Err(NoEligibleLevel(Bid))
        else
          var size := TradeSize(askE, bidE);
          Ok(BookImbalance(AskImbalance(BookCost(askP, askA, size), size, askP[0]),
                           BidImbalance(BookCost(bidP, bidA, size), size, bidP[0])))
  }

  /** `compute_imbalances`, with its two walks as loops. */
  method ComputeImbalances(askP: seq<real>, askA: seq<real>, bidP: seq<real>, bidA: seq<real>)
    returns (r: Result<BookImbalance>)
    requires |askA| <= |askP| && |bidA| <= |bidP|
    ensures r == Imbalances(askP, askA, bidP, bidA)
  {
    if |askP| > 0 && !AmountsCover(Ask, askP[0], askP, askA, 0) {
      return Err(MissingAmount(Ask));
    }
    var askE := EligibleAmounts(Ask, askP, askA);
    if |askE| == 0 {
      return Err(NoEligibleLevel(Ask));
    }
    if |bidP| > 0 && !AmountsCover(Bid, bidP[0], bidP, bidA, 0) {
      return Err(MissingAmount(Bid));
    }
    var bidE := EligibleAmounts(Bid, bidP, bidA);
    if |bidE| == 0 {
      return Err(NoEligibleLevel(Bid));
    }
    var median := TradeSize(askE, bidE);
    var askMoney := WalkBook(askP, askA, median);
    var askImbalance := AskImbalance(askMoney, median, askP[0]);
    var bidMoney := WalkBook(bidP, bidA, median);
    var bidImbalance := BidImbalance(bidMoney, median, bidP[0]);
    r := Ok(BookImbalance(askImbalance, bidImbalance));
  }

  /** With positive best prices on both sides neither median can fail: the
      only possible exception is a missing amount slot. */
  lemma PositiveBestPricesHaveMedians(askP: seq<real>, askA: seq<real>, bidP: seq<real>, bidA: seq<real>)
    requires |askA| <= |askP| && |bidA| <= |bidP|
    requires |askP| > 0 && askP[0] > 0.0 && |bidP| > 0 && bidP[0] > 0.0
    ensures Imbalances(askP, askA, bidP, bidA).Err? ==> Imbalances(askP, askA, bidP, bidA).error.MissingAmount?
  {
    if AmountsCover(Ask, askP[0], askP, askA, 0) {
      EligibleStartsWithBest(Ask, askP, askA);
      if AmountsCover(Bid, bidP[0], bidP, bidA, 0) {
        EligibleStartsWithBest(Bid, bidP, bidA);
      }
    }
  }

  /** A best level at least as deep as the trade size settles that side
      on its own, and the side's imbalance is exactly 0. */
  lemma BestLevelSettlesSide(askP: seq<real>, askA: seq<real>, bidP: seq<real>, bidA: seq<real>)
    requires |askA| <= |askP| && |bidA| <= |bidP|
    requires Imbalances(askP, askA, bidP, bidA).Ok?
    ensures var askE, bidE := EligibleAmounts(Ask, askP, askA), EligibleAmounts(Bid, bidP, bidA);
      |askE| > 0 && |bidE| > 0 &&
      var size := TradeSize(askE, bidE);
      (size != 0.0 && askP[0] != 0.0 && 0 < |askA| && askA[0] >= size ==>
         Imbalances(askP, askA, bidP, bidA).value.ask == Finite(0.0)) &&
      (size != 0.0 && bidP[0] != 0.0 && 0 < |bidA| && bidA[0] >= size ==>
         Imbalances(askP, askA, bidP, bidA).value.bid == Finite(0.0))
  {
    var size := TradeSize(EligibleAmounts(Ask, askP, askA), EligibleAmounts(Bid, bidP, bidA));
    if size != 0.0 && askP[0] != 0.0 && 0 < |askA| && askA[0] >= size {
      BestLevelCoversGivesZero(askP, askA, size);
    }
    if size != 0.0 && bidP[0] != 0.0 && 0 < |bidA| && bidA[0] >= size {
      BestLevelCoversGivesZero(bidP, bidA, size);
    }
  }

  /** One level on each side, best ask 100 and best bid 99, both of amount 5:
      the trade size is 5 and both imbalances are 0. */
  lemma SingleLevelExample()
    ensures Imbalances([100.0], [5.0], [99.0], [5.0]) == Ok(BookImbalance(Finite(0.0), Finite(0.0)))
  {
    BestLevelEligible(Ask, 100.0);
    BestLevelEligible(Bid, 99.0);
    assert EligibleAmounts(Ask, [100.0], [5.0]) == [5.0];
    assert EligibleAmounts(Bid, [99.0], [5.0]) == [5.0];
    assert TradeSize([5.0], [5.0]) == 5.0;
    BestLevelCoversGivesZero([100.0], [5.0], 5.0);
    BestLevelCoversGivesZero([99.0], [5.0], 5.0);
  }

  /** `data[offset::4]`. */
  function Stride(data: seq<real>, offset: nat): (r: seq<real>)
    ensures |r| == if offset < |data| then (|data| - offset + 3) / 4 else 0
    ensures forall k :: 0 <= k < |r| ==> r[k] == data[offset + 4 * k]
    decreases |data| - offset
  {
    if offset >= |data| then [] else [data[offset]] + Stride(data, offset + 4)
  }

  /** The inverse of the four strides: level `k` occupies slots `4k .. 4k + 3`
      as (ask price, ask amount, bid price, bid amount). */
  function Interleave(askP: seq<real>, askA: seq<real>, bidP: seq<real>, bidA: seq<real>): (data: seq<real>)
    requires |askP| == |askA| == |bidP| == |bidA|
    ensures |data| == 4 * |askP|
  {
    seq(4 * |askP|, k requires 0 <= k < 4 * |askP| =>
      var level := k / 4;
      if k % 4 == 0 then askP[level]
      else if k % 4 == 1 then askA[level]
      else if k % 4 == 2 then bidP[level]
      else bidA[level])
  }

  /** De-interleaving a whole number of levels and interleaving again gives the row back. */
  lemma InterleaveStrides(data: seq<real>)
    requires |data| % 4 == 0
    ensures |Stride(data, 0)| == |Stride(data, 1)| == |Stride(data, 2)| == |Stride(data, 3)| == |data| / 4
    ensures Interleave(Stride(data, 0), Stride(data, 1), Stride(data, 2), Stride(data, 3)) == data
  {
    var r := Interleave(Stride(data, 0), Stride(data, 1), Stride(data, 2), Stride(data, 3));
    forall k | 0 <= k < |data|
      ensures r[k] == data[k]
    {
      assert k == k % 4 + 4 * (k / 4);
    }
  }

  /** Interleaving four level arrays and de-interleaving again gives each array back. */
  lemma StridesOfInterleave(askP: seq<real>, askA: seq<real>, bidP: seq<real>, bidA: seq<real>)
    requires |askP| == |askA| == |bidP| == |bidA|
    ensures var data := Interleave(askP, askA, bidP, bidA);
      Stride(data, 0) == askP && Stride(data, 1) == askA && Stride(data, 2) == bidP && Stride(data, 3) == bidA
  {
    var data := Interleave(askP, askA, bidP, bidA);
    forall k | 0 <= k < |askP|
      ensures data[4 * k] == askP[k] && data[4 * k + 1] == askA[k]
      ensures data[4 * k + 2] == bidP[k] && data[4 * k + 3] == bidA[k]
    {
    }
  }

  /** `compute_improved_imbalance`: drop the timestamp, de-interleave, compute.
      Only an empty row raises before the book is read, and a result carries
      the row's own timestamp. */
  function RowImbalanceOf(row: seq<real>): (r: Result<RowImbalance>)
    ensures r == Err(EmptySnapshot) <==> |row| == 0
    ensures r.Ok? ==> r.value.ts == row[0]
  {
    if |row| == 0 then Err(EmptySnapshot)
    else
      var data := row[1..];
      match Imbalances(Stride(data, 0), Stride(data, 1), Stride(data, 2), Stride(data, 3))
      case Err(e) => Err(e)
      case Ok(im) => Ok(RowImbalance(row[0], im.ask, im.bid))
  }

  /** A row holding a timestamp and whole levels never hits a missing amount. */
  lemma WholeLevelsHaveAmounts(row: seq<real>)
    requires |row| % 4 == 1
    ensures RowImbalanceOf(row).Err? ==> RowImbalanceOf(row).error.NoEligibleLevel?
  {
    InterleaveStrides(row[1..]);
  }

  /** `cupy_imb`: one tuple per row, in order; the first row that raises
      aborts the whole call with its exception. */
  method CupyImb(dataset: seq<seq<real>>) returns (r: Result<seq<RowImbalance>>)
    ensures r.Ok? <==> forall i :: 0 <= i < |dataset| ==> RowImbalanceOf(dataset[i]).Ok?
    ensures r.Ok? ==> |r.value| == |dataset|
    ensures r.Ok? ==> forall i :: 0 <= i < |dataset| ==> RowImbalanceOf(dataset[i]) == Ok(r.value[i])
    ensures r.Err? ==> exists i :: 0 <= i < |dataset| && RowImbalanceOf(dataset[i]) == Err(r.error)
                                   && (forall k :: 0 <= k < i ==> RowImbalanceOf(dataset[k]).Ok?)
  {
    var tuples := seq(|dataset|, _ => RowImbalance(0.0, Finite(0.0), Finite(0.0)));
    for i := 0 to |dataset|
      invariant |tuples| == |dataset|
      invariant forall k :: 0 <= k < i ==> RowImbalanceOf(dataset[k]) == Ok(tuples[k])
    {
      var t := RowImbalanceOf(dataset[i]);
      if t.Err? {
        return Err(t.error);
      }
      tuples := tuples[i := t.value];
    }
    r := Ok(tuples);
  }
}
