/** Whole runs of swap steps against one range of constant liquidity: nobody trades for free. */
module SwapRuns {
  import opened IntMath
  import opened SqrtPriceMath
  import opened SwapMath
  import opened Outcomes

  // One call of the step function: a target, a signed amount and a fee.
  datatype Trade = Trade(target: int, amountRemaining: int, feePips: int)

  // The pool's price and what it has received of each token, net of what it paid out.
  // Fees are kept apart: the results below hold without counting them.
  datatype Ledger = Ledger(price: int, net0: int, net1: int, fees0: int, fees1: int)

  function Settle(l: Ledger, liquidity: int, t: Trade): Result<Ledger> {
    var step :- ComputeSwapStep(l.price, t.target, liquidity, t.amountRemaining, t.feePips);
    if l.price >= t.target then
      Ok(Ledger(step.sqrtRatioNext, l.net0 + step.amountIn, l.net1 - step.amountOut, l.fees0 + step.feeAmount, l.fees1))
    else
      Ok(Ledger(step.sqrtRatioNext, l.net0 - step.amountOut, l.net1 + step.amountIn, l.fees0, l.fees1 + step.feeAmount))
  }

  function Run(l: Ledger, liquidity: int, trades: seq<Trade>): Result<Ledger>
    decreases |trades|
  {
    if trades == [] then Ok(l)
    else
      var next :- Settle(l, liquidity, trades[0]);
      Run(next, liquidity, trades[1..])
  }

  predicate Usable(trades: seq<Trade>) {
    forall i :: 0 <= i < |trades| ==> 0 < trades[i].target && 0 <= trades[i].feePips < PIPS
  }

  // What came in pays for the whole move of the price from `start`, in both tokens.
  predicate Backed(start: int, l: Ledger, liquidity: int) {
    && 0 < start && 0 < l.price
    && liquidity * Q96 * (start - l.price) <= l.net0 * (start * l.price)
    && liquidity * (l.price - start) <= l.net1 * Q96
    && 0 <= l.fees0 && 0 <= l.fees1
  }

  // Payments for consecutive moves p0 -> p and p -> q add up to a payment for p0 -> q.
  lemma PaymentsCompose(n: int, p0: int, p: int, q: int, d0: int, d: int)
    requires 0 < p0 && 0 < p && 0 < q
    requires n * (p0 - p) <= d0 * (p0 * p) && n * (p - q) <= d * (q * p)
    ensures n * (p0 - q) <= (d0 + d) * (p0 * q)
  {
    MulMono(n * (p0 - p), d0 * (p0 * p), q);
    MulMono(n * (p - q), d * (q * p), p0);
    MovesAdd(n, p0, p, q);
    PaymentsAdd(p0, p, q, d0, d);
    CancelLe(n * (p0 - q), (d0 + d) * (p0 * q), p);
  }

  lemma MovesAdd(n: int, p0: int, p: int, q: int)
    ensures n * (p0 - p) * q + n * (p - q) * p0 == n * (p0 - q) * p
  {
  }

  lemma PaymentsAdd(p0: int, p: int, q: int, d0: int, d: int)
    ensures d0 * (p0 * p) * q + d * (q * p) * p0 == (d0 + d) * (p0 * q) * p
  {
  }

  // One step: it never throws, and what it charges and pays is backed by the price move.
  lemma StepIsBacked(price: int, liquidity: int, t: Trade)
    requires 0 < price && 0 < liquidity && 0 < t.target && 0 <= t.feePips < PIPS
    ensures var r := ComputeSwapStep(price, t.target, liquidity, t.amountRemaining, t.feePips);
            && r.Ok? && 0 < r.value.sqrtRatioNext && 0 <= r.value.feeAmount
            && Pays(price >= t.target, price, r.value.sqrtRatioNext, liquidity, r.value.amountIn)
            && Releases(price >= t.target, price, r.value.sqrtRatioNext, liquidity, r.value.amountOut)
  {
    if t.amountRemaining >= 0 {
      ExactInShape(price, t.target, liquidity, t.amountRemaining, t.feePips);
      var step := ComputeSwapStep(price, t.target, liquidity, t.amountRemaining, t.feePips).value;
      ExactInAmounts(price, t.target, liquidity, t.amountRemaining, t.feePips, step.amountIn);
      ExactInAmounts(price, t.target, liquidity, t.amountRemaining, t.feePips, step.amountOut);
    } else {
      ExactOutShape(price, t.target, liquidity, -t.amountRemaining, t.feePips);
      var step := ComputeSwapStep(price, t.target, liquidity, t.amountRemaining, t.feePips).value;
      ExactOutAmounts(price, t.target, liquidity, -t.amountRemaining, t.feePips, step.amountIn);
    }
  }

  lemma SettleKeepsBacked(start: int, l: Ledger, liquidity: int, t: Trade)
    requires Backed(start, l, liquidity) && 0 < liquidity
    requires 0 < t.target && 0 <= t.feePips < PIPS
    ensures Settle(l, liquidity, t).Ok? && Backed(start, Settle(l, liquidity, t).value, liquidity)
  {
    StepIsBacked(l.price, liquidity, t);
    var step := ComputeSwapStep(l.price, t.target, liquidity, t.amountRemaining, t.feePips).value;
    if l.price >= t.target {
      PaymentsCompose(liquidity * Q96, start, l.price, step.sqrtRatioNext, l.net0, step.amountIn);
      SplitMove(liquidity, start, l.price, step.sqrtRatioNext);
    } else {
      FlipPayment(liquidity * Q96, l.price, step.sqrtRatioNext, step.amountOut);
      PaymentsCompose(liquidity * Q96, start, l.price, step.sqrtRatioNext, l.net0, -step.amountOut);
      SplitMove(liquidity, start, l.price, step.sqrtRatioNext);
    }
  }

  // Releasing y on the way up is receiving -y on that move.
  lemma FlipPayment(n: int, p: int, q: int, y: int)
    requires y * (p * q) <= n * (q - p)
    ensures n * (p - q) <= (-y) * (q * p)
  {
  }

  lemma SplitMove(liquidity: int, start: int, p: int, q: int)
    ensures liquidity * (q - start) == liquidity * (p - start) + liquidity * (q - p)
    ensures liquidity * (q - p) == -(liquidity * (p - q))
  {
  }

  // Every run of steps, exact-in and exact-out mixed, in any directions and at any fees, is backed.
  lemma {:induction false} RunIsBacked(start: int, l: Ledger, liquidity: int, trades: seq<Trade>)
    requires Backed(start, l, liquidity) && 0 < liquidity && Usable(trades)
    ensures Run(l, liquidity, trades).Ok? && Backed(start, Run(l, liquidity, trades).value, liquidity)
    decreases |trades|
  {
    if trades != [] {
      SettleKeepsBacked(start, l, liquidity, trades[0]);
      RunIsBacked(start, Settle(l, liquidity, trades[0]).value, liquidity, trades[1..]);
    }
  }

  // No run leaves the traders richer in one token without having cost them the other, fees not counted.
  lemma NoFreeLunch(start: int, liquidity: int, trades: seq<Trade>)
    requires 0 < start && 0 < liquidity && Usable(trades)
    ensures var r := Run(Ledger(start, 0, 0, 0, 0), liquidity, trades);
            && r.Ok? && 0 <= r.value.fees0 && 0 <= r.value.fees1
            && (r.value.net1 <= 0 ==> 0 <= r.value.net0)
            && (r.value.net0 <= 0 ==> 0 <= r.value.net1)
  {
    var l := Ledger(start, 0, 0, 0, 0);
    RunIsBacked(start, l, liquidity, trades);
    BackedIsNotFree(start, Run(l, liquidity, trades).value, liquidity);
  }

  lemma BackedIsNotFree(start: int, e: Ledger, liquidity: int)
    requires Backed(start, e, liquidity) && 0 < liquidity
    ensures e.net1 <= 0 ==> 0 <= e.net0
    ensures e.net0 <= 0 ==> 0 <= e.net1
  {
  }

  // Swapping x in and the whole proceeds back never returns more than the first step charged,
  // hence never more than x, for any fees and either direction.
  lemma RoundTripLoses(price: int, liquidity: int, x: int, out: int, back: int, fee1: int, fee2: int)
    requires Priced(price, out, liquidity, fee1) && Priced(price, back, liquidity, fee2) && 0 <= x
    ensures var first := ComputeSwapStep(price, out, liquidity, x, fee1);
            && first.Ok?
            && ((if price >= out then first.value.sqrtRatioNext < back else back <= first.value.sqrtRatioNext) ==>
                  var second := ComputeSwapStep(first.value.sqrtRatioNext, back, liquidity, first.value.amountOut, fee2);
                  second.Ok? && second.value.amountOut <= first.value.amountIn <= x)
  {
    var t1 := Trade(out, x, fee1);
    StepIsBacked(price, liquidity, t1);
    ExactInAmounts(price, out, liquidity, x, fee1, 0);
    var first := ComputeSwapStep(price, out, liquidity, x, fee1).value;
    var mid := first.sqrtRatioNext;
    var t2 := Trade(back, first.amountOut, fee2);
    StepIsBacked(mid, liquidity, t2);
    ExactInAmounts(mid, back, liquidity, first.amountOut, fee2, 0);
    var l := Ledger(price, 0, 0, 0, 0);
    NoFreeLunch(price, liquidity, [t1, t2]);
    var l1 := Settle(l, liquidity, t1).value;
    assert [t1, t2][1..] == [t2];
    assert Run(l1, liquidity, [t2]) == Run(Settle(l1, liquidity, t2).value, liquidity, []);
  }
}
