/** src/math/swap_math.ts: one swap step inside a single tick range. */
module SwapMath {
  import opened IntMath
  import opened FullMath
  import opened SqrtPriceMath
  import opened Outcomes

  const PIPS: int := 1_000_000

  datatype SwapStep = SwapStep(sqrtRatioNext: int, amountIn: int, amountOut: int, feeAmount: int)

  // The input charged for a price move, rounded up.
  function InputDelta(zeroForOne: bool, current: int, p: int, liquidity: int): Result<int> {
    if zeroForOne then GetAmount0Delta(p, current, liquidity, true)
    else GetAmount1Delta(current, p, liquidity, true)
  }

  // The output paid for a price move, rounded down.
  function OutputDelta(zeroForOne: bool, current: int, p: int, liquidity: int): Result<int> {
    if zeroForOne then GetAmount1Delta(p, current, liquidity, false)
    else GetAmount0Delta(current, p, liquidity, false)
  }

  // amountRemaining is non-negative for exact input, negative for exact output.
  function ComputeSwapStep(current: int, target: int, liquidity: int, amountRemaining: int, feePips: int)
    : Result<SwapStep>
  {
    var zeroForOne := current >= target;
    if amountRemaining >= 0 then
      var lessFee :- MulDiv(amountRemaining, PIPS - feePips, PIPS);
      var toTarget :- InputDelta(zeroForOne, current, target, liquidity);
      var next :- if lessFee >= toTarget then Ok(target)
                  else GetNextSqrtPriceFromInput(current, liquidity, lessFee, zeroForOne);
      var amountIn :- if next == target then Ok(toTarget) else InputDelta(zeroForOne, current, next, liquidity);
      var amountOut :- OutputDelta(zeroForOne, current, next, liquidity);
      var fee :- if next != target then Ok(amountRemaining - amountIn)
                 else MulDivRoundingUp(amountIn, feePips, PIPS - feePips);
      Ok(SwapStep(next, amountIn, amountOut, fee))
    else
      var wanted := -amountRemaining;
      var toTarget :- OutputDelta(zeroForOne, current, target, liquidity);
      var next :- if wanted >= toTarget then Ok(target)
                  else GetNextSqrtPriceFromOutput(current, liquidity, wanted, zeroForOne);
      var amountIn :- InputDelta(zeroForOne, current, next, liquidity);
      var uncapped :- if next == target then Ok(toTarget) else OutputDelta(zeroForOne, current, next, liquidity);
      var amountOut := if uncapped > wanted then wanted else uncapped;
      var fee :- MulDivRoundingUp(amountIn, feePips, PIPS - feePips);
      Ok(SwapStep(next, amountIn, amountOut, fee))
  }

  // --- What a price move costs and yields, stated without rounding ---

  // p lies between the current price and the target, in the direction of the trade.
  predicate Between(current: int, p: int, target: int) {
    if current >= target then target <= p <= current else current <= p <= target
  }

  // The trade direction allows moving from current to p.
  predicate Along(zeroForOne: bool, current: int, p: int) {
    if zeroForOne then p <= current else current <= p
  }

  // An input of a pays for moving the price from current to p.
  predicate Pays(zeroForOne: bool, current: int, p: int, liquidity: int, a: int) {
    if zeroForOne then liquidity * Q96 * (current - p) <= a * (p * current)
    else liquidity * (p - current) <= a * Q96
  }

  // Moving the price from current to p releases at least y of the output token.
  predicate Releases(zeroForOne: bool, current: int, p: int, liquidity: int, y: int) {
    if zeroForOne then y * Q96 <= liquidity * (current - p)
    else y * (current * p) <= liquidity * Q96 * (p - current)
  }

  // What the source asks of its caller: a usable pool and a fee below one.
  predicate Priced(current: int, target: int, liquidity: int, feePips: int) {
    0 < current && 0 < target && 0 < liquidity && 0 <= feePips < PIPS
  }

  // What is left to trade with once the fee is set aside.
  function LessFee(amount: int, feePips: int): int {
    amount * (PIPS - feePips) / PIPS
  }

  // The input as the code rounds it is the least amount that pays for the move.
  lemma InputDeltaIsLeast(zeroForOne: bool, current: int, p: int, liquidity: int, a: int)
    requires 0 < current && 0 < p && 0 < liquidity && Along(zeroForOne, current, p)
    ensures var d := InputDelta(zeroForOne, current, p, liquidity);
            d.Ok? && 0 <= d.value && (d.value <= a <==> Pays(zeroForOne, current, p, liquidity, a))
  {
    if zeroForOne {
      Amount0DeltaExact(p, current, liquidity);
      MulStrict(0, p, current);
      var v := GetAmount0Delta(p, current, liquidity, true).value;
      var x := liquidity * Q96 * (current - p);
      CeilLe(v, x, p * current, a);
      MulMono(0, liquidity * Q96, current - p);
      CeilLe(v, x, p * current, -1);
    } else {
      Amount1DeltaExact(current, p, liquidity);
      var v := GetAmount1Delta(current, p, liquidity, true).value;
      CeilLe(v, liquidity * (p - current), Q96, a);
      MulMono(0, liquidity, p - current);
      CeilLe(v, liquidity * (p - current), Q96, -1);
    }
  }

  // The output as the code rounds it is the greatest amount the move releases.
  lemma OutputDeltaIsGreatest(zeroForOne: bool, current: int, p: int, liquidity: int, y: int)
    requires 0 < current && 0 < p && 0 < liquidity && Along(zeroForOne, current, p)
    ensures var d := OutputDelta(zeroForOne, current, p, liquidity);
            d.Ok? && 0 <= d.value && (y <= d.value <==> Releases(zeroForOne, current, p, liquidity, y))
  {
    if zeroForOne {
      Amount1DeltaExact(p, current, liquidity);
      FloorGe(GetAmount1Delta(p, current, liquidity, false).value, liquidity * (current - p), Q96, y);
    } else {
      Amount0DeltaExact(current, p, liquidity);
      MulStrict(0, current, p);
      FloorGe(GetAmount0Delta(current, p, liquidity, false).value, liquidity * Q96 * (p - current), current * p, y);
    }
  }

  lemma Pays0Linear(current: int, p: int, n: int, a: int)
    ensures n * (current - p) <= a * (p * current) <==> n * current <= p * (n + a * current)
  {
  }

  lemma Releases0Linear(current: int, p: int, n: int, w: int)
    ensures w * (current * p) <= n * (p - current) <==> n * current <= p * (n - w * current)
  {
  }

  // The next price for an input is the furthest one the input pays for.
  lemma NextFromInputIsFurthest(zeroForOne: bool, current: int, liquidity: int, a: int, p: int)
    requires 0 < current && 0 < liquidity && 0 <= a && 0 < p
    ensures var r := GetNextSqrtPriceFromInput(current, liquidity, a, zeroForOne);
            && r.Ok? && 0 < r.value && Along(zeroForOne, current, r.value)
            && (Pays(zeroForOne, current, p, liquidity, a) <==> Along(zeroForOne, p, r.value))
  {
    if zeroForOne {
      var n := liquidity * Q96;
      MulMono(0, a, current);
      NextPriceAdding0(current, liquidity, a);
      var r := GetNextSqrtPriceFromInput(current, liquidity, a, true).value;
      var d := n + a * current;
      Pays0Linear(current, p, n, a);
      CeilLe(r, n * current, d, p);
      Pays0Linear(current, current, n, a);
      MulMono(0, a, current * current);
      CeilLe(r, n * current, d, current);
      MulStrict(0, n, current);
      CeilLe(r, n * current, d, 0);
    } else {
      NextPriceAdding1(current, liquidity, a);
      var r := GetNextSqrtPriceFromInput(current, liquidity, a, false).value;
      FloorGe(r - current, a * Q96, liquidity, p - current);
    }
  }

  // The next price for an output is the nearest one that releases it; when some reachable
  // price releases it, neither underflow is thrown.
  lemma NextFromOutputIsNearest(zeroForOne: bool, current: int, liquidity: int, w: int, reach: int, p: int)
    requires 0 < current && 0 < liquidity && 0 < w && 0 < reach
    requires Releases(zeroForOne, current, reach, liquidity, w)
    ensures var r := GetNextSqrtPriceFromOutput(current, liquidity, w, zeroForOne);
            && r.Ok? && 0 < r.value && Along(zeroForOne, current, r.value)
            && (Releases(zeroForOne, current, p, liquidity, w) <==> Along(zeroForOne, r.value, p))
  {
    if zeroForOne {
      Nearest1(current, liquidity, w, reach, p);
    } else {
      Nearest0(current, liquidity, w, reach, p);
    }
  }

  lemma Nearest1(current: int, liquidity: int, w: int, reach: int, p: int)
    requires 0 < current && 0 < liquidity && 0 < w && 0 < reach
    requires w * Q96 <= liquidity * (current - reach)
    ensures var r := GetNextSqrtPriceFromOutput(current, liquidity, w, true);
            r.Ok? && 0 < r.value <= current && (w * Q96 <= liquidity * (current - p) <==> p <= r.value)
  {
    NextPriceRemoving1(current, liquidity, w);
    MulMono(current - reach, current - 1, liquidity);
    var r := GetNextSqrtPriceFromOutput(current, liquidity, w, true).value;
    CeilLe(current - r, w * Q96, liquidity, current - p);
  }

  lemma Nearest0(current: int, liquidity: int, w: int, reach: int, p: int)
    requires 0 < current && 0 < liquidity && 0 < w && 0 < reach
    requires w * (current * reach) <= liquidity * Q96 * (reach - current)
    ensures var r := GetNextSqrtPriceFromOutput(current, liquidity, w, false);
            r.Ok? && current <= r.value && (w * (current * p) <= liquidity * Q96 * (p - current) <==> r.value <= p)
  {
    var n := liquidity * Q96;
    var d := n - w * current;
    assert 0 < d by {
      Releases0Linear(current, reach, n, w);
      MulStrict(0, n, current);
      CancelLt(0, d, reach);
    }
    NextPriceRemoving0(current, liquidity, w);
    var r := GetNextSqrtPriceFromOutput(current, liquidity, w, false).value;
    assert r <= p <==> w * (current * p) <= n * (p - current) by {
      Releases0Linear(current, p, n, w);
      CeilLe(r, n * current, d, p);
    }
    assert current <= r by {
      MulStrict(0, w, current);
      MulStrict(d, n, current);
      CeilLe(r, n * current, d, current - 1);
      MulMono(current - 1, current, d);
    }
  }

  // The fee on a reached target is the least f that gives the pool its share of what the trader hands over.
  lemma FeeIsLeast(amountIn: int, feePips: int, f: int)
    requires 0 <= amountIn && 0 <= feePips < PIPS
    ensures var r := MulDivRoundingUp(amountIn, feePips, PIPS - feePips);
            r.Ok? && 0 <= r.value && (r.value <= f <==> (amountIn + f) * feePips <= f * 1_000_000)
  {
    MulDivRoundsUp(amountIn, feePips, PIPS - feePips);
    CeilLe(MulDivRoundingUp(amountIn, feePips, PIPS - feePips).value, amountIn * feePips, PIPS - feePips, f);
    assert f * (PIPS - feePips) == f * PIPS - f * feePips;
    assert (amountIn + f) * feePips == amountIn * feePips + f * feePips;
  }

  // A shorter move in the same direction costs no more.
  lemma PaysLess(zeroForOne: bool, current: int, p: int, far: int, liquidity: int, a: int)
    requires 0 < current && 0 < far && 0 < p && 0 < liquidity && 0 <= a
    requires Pays(zeroForOne, current, far, liquidity, a) && Along(zeroForOne, p, far)
    ensures Pays(zeroForOne, current, p, liquidity, a)
  {
  }

  // --- Exact input ---

  // Which branch sets the next price, and what the amounts are in terms of it.
  lemma ExactInShape(current: int, target: int, liquidity: int, amount: int, feePips: int)
    requires Priced(current, target, liquidity, feePips) && 0 <= amount
    ensures var zeroForOne, a := current >= target, LessFee(amount, feePips);
            var r := ComputeSwapStep(current, target, liquidity, amount, feePips);
            && 0 <= a <= amount && r.Ok? && 0 < r.value.sqrtRatioNext
            && Between(current, r.value.sqrtRatioNext, target)
            && (r.value.sqrtRatioNext == target <==> Pays(zeroForOne, current, target, liquidity, a))
            && (r.value.sqrtRatioNext != target ==>
                  Ok(r.value.sqrtRatioNext) == GetNextSqrtPriceFromInput(current, liquidity, a, zeroForOne))
            && Ok(r.value.amountIn) == InputDelta(zeroForOne, current, r.value.sqrtRatioNext, liquidity)
            && Ok(r.value.amountOut) == OutputDelta(zeroForOne, current, r.value.sqrtRatioNext, liquidity)
            && (if r.value.sqrtRatioNext != target then r.value.feeAmount == amount - r.value.amountIn
                else Ok(r.value.feeAmount) == MulDivRoundingUp(r.value.amountIn, feePips, PIPS - feePips))
  {
    var zeroForOne, a := current >= target, LessFee(amount, feePips);
    MulDivRoundsDown(amount, PIPS - feePips, PIPS);
    TDivFloor(amount * (PIPS - feePips), PIPS);
    MulMono(PIPS - feePips, PIPS, amount);
    InputDeltaIsLeast(zeroForOne, current, target, liquidity, a);
    NextFromInputIsFurthest(zeroForOne, current, liquidity, a, target);
    var next := if Pays(zeroForOne, current, target, liquidity, a) then target
                else GetNextSqrtPriceFromInput(current, liquidity, a, zeroForOne).value;
    InputDeltaIsLeast(zeroForOne, current, next, liquidity, a);
    OutputDeltaIsGreatest(zeroForOne, current, next, liquidity, 0);
    FeeIsLeast(InputDelta(zeroForOne, current, target, liquidity).value, feePips, 0);
  }

  // An exact-in step never throws and never passes its target; it stops at the furthest price the
  // fee-reduced input pays for, so it reaches the target exactly when the target is affordable.
  lemma ExactInPrice(current: int, target: int, liquidity: int, amount: int, feePips: int, p: int)
    requires Priced(current, target, liquidity, feePips) && 0 <= amount
    requires Between(current, p, target)
    ensures var r := ComputeSwapStep(current, target, liquidity, amount, feePips);
            && r.Ok? && Between(current, r.value.sqrtRatioNext, target)
            && (Pays(current >= target, current, p, liquidity, LessFee(amount, feePips))
                <==> Between(current, p, r.value.sqrtRatioNext))
  {
    var zeroForOne, a := current >= target, LessFee(amount, feePips);
    ExactInShape(current, target, liquidity, amount, feePips);
    var next := ComputeSwapStep(current, target, liquidity, amount, feePips).value.sqrtRatioNext;
    if next == target {
      PaysLess(zeroForOne, current, p, target, liquidity, a);
    } else {
      NextFromInputIsFurthest(zeroForOne, current, liquidity, a, p);
    }
  }

  // The step charges the least input and pays the greatest output for its price move; together with
  // the fee it takes no more than the trader offered, and all of it when it stops short.
  lemma ExactInAmounts(current: int, target: int, liquidity: int, amount: int, feePips: int, x: int)
    requires Priced(current, target, liquidity, feePips) && 0 <= amount
    ensures var zeroForOne := current >= target;
            var r := ComputeSwapStep(current, target, liquidity, amount, feePips);
            && r.Ok? && 0 <= r.value.amountIn && 0 <= r.value.amountOut && 0 <= r.value.feeAmount
            && (r.value.amountIn <= x <==> Pays(zeroForOne, current, r.value.sqrtRatioNext, liquidity, x))
            && (x <= r.value.amountOut <==> Releases(zeroForOne, current, r.value.sqrtRatioNext, liquidity, x))
            && r.value.amountIn + r.value.feeAmount <= amount
            && (r.value.sqrtRatioNext != target ==> r.value.amountIn + r.value.feeAmount == amount)
            && (r.value.amountIn + r.value.feeAmount) * feePips <= r.value.feeAmount * 1_000_000
            && (r.value.sqrtRatioNext == target && (r.value.amountIn + x) * feePips <= x * 1_000_000 ==> r.value.feeAmount <= x)
  {
    var zeroForOne, a := current >= target, LessFee(amount, feePips);
    ExactInShape(current, target, liquidity, amount, feePips);
    var step := ComputeSwapStep(current, target, liquidity, amount, feePips).value;
    InputDeltaIsLeast(zeroForOne, current, step.sqrtRatioNext, liquidity, x);
    InputDeltaIsLeast(zeroForOne, current, step.sqrtRatioNext, liquidity, a);
    OutputDeltaIsGreatest(zeroForOne, current, step.sqrtRatioNext, liquidity, x);
    assert step.amountIn <= a by {
      ExactInPrice(current, target, liquidity, amount, feePips, step.sqrtRatioNext);
    }
    FeeFits(step.amountIn, amount, feePips);
    if step.sqrtRatioNext == target {
      FeeIsLeast(step.amountIn, feePips, amount - step.amountIn);
      FeeIsLeast(step.amountIn, feePips, step.feeAmount);
      FeeIsLeast(step.amountIn, feePips, x);
    }
  }

  // When the charged input is within the fee-reduced amount, the rest of the amount covers the fee.
  lemma FeeFits(amountIn: int, amount: int, feePips: int)
    requires 0 <= amount && 0 <= feePips < PIPS && amountIn <= LessFee(amount, feePips)
    ensures amount * feePips <= (amount - amountIn) * PIPS
  {
  }

  // A longer move releases no less.
  lemma ReleasesMore(zeroForOne: bool, current: int, p: int, far: int, liquidity: int, y: int)
    requires 0 < current && 0 < p && 0 < liquidity && Along(zeroForOne, p, far)
    requires Releases(zeroForOne, current, p, liquidity, y)
    ensures Releases(zeroForOne, current, far, liquidity, y)
  {
  }

  lemma LessFeeMono(x: int, y: int, feePips: int)
    requires 0 <= x <= y && 0 <= feePips < PIPS
    ensures LessFee(x, feePips) <= LessFee(y, feePips)
  {
  }

  lemma PaysMore(zeroForOne: bool, current: int, p: int, liquidity: int, a: int, b: int)
    requires 0 < current && 0 < p && a <= b && Pays(zeroForOne, current, p, liquidity, a)
    ensures Pays(zeroForOne, current, p, liquidity, b)
  {
  }

  // Offering more moves the price at least as far and pays out at least as much; once the target
  // is reached the rest of the offer changes nothing.
  lemma MoreInputMoreOutput(current: int, target: int, liquidity: int, x: int, y: int, feePips: int)
    requires Priced(current, target, liquidity, feePips) && 0 <= x <= y
    ensures var r := ComputeSwapStep(current, target, liquidity, x, feePips);
            var q := ComputeSwapStep(current, target, liquidity, y, feePips);
            && r.Ok? && q.Ok? && Between(current, r.value.sqrtRatioNext, q.value.sqrtRatioNext)
            && r.value.amountOut <= q.value.amountOut
            && (r.value.sqrtRatioNext == target ==> q == r)
  {
    var zeroForOne := current >= target;
    hide ComputeSwapStep, Pays, Releases;
    ExactInShape(current, target, liquidity, x, feePips);
    ExactInShape(current, target, liquidity, y, feePips);
    var r := ComputeSwapStep(current, target, liquidity, x, feePips).value;
    var q := ComputeSwapStep(current, target, liquidity, y, feePips).value;
    LessFeeMono(x, y, feePips);
    ExactInPrice(current, target, liquidity, x, feePips, r.sqrtRatioNext);
    PaysMore(zeroForOne, current, r.sqrtRatioNext, liquidity, LessFee(x, feePips), LessFee(y, feePips));
    ExactInPrice(current, target, liquidity, y, feePips, r.sqrtRatioNext);
    OutputDeltaIsGreatest(zeroForOne, current, r.sqrtRatioNext, liquidity, r.amountOut);
    ReleasesMore(zeroForOne, current, r.sqrtRatioNext, q.sqrtRatioNext, liquidity, r.amountOut);
    OutputDeltaIsGreatest(zeroForOne, current, q.sqrtRatioNext, liquidity, r.amountOut);
  }

  // --- Exact output ---

  lemma ExactOutShape(current: int, target: int, liquidity: int, wanted: int, feePips: int)
    requires Priced(current, target, liquidity, feePips) && 0 < wanted
    ensures var zeroForOne := current >= target;
            var r := ComputeSwapStep(current, target, liquidity, -wanted, feePips);
            && r.Ok? && 0 < r.value.sqrtRatioNext
            && Between(current, r.value.sqrtRatioNext, target)
            && Ok(r.value.amountIn) == InputDelta(zeroForOne, current, r.value.sqrtRatioNext, liquidity)
            && var available := OutputDelta(zeroForOne, current, r.value.sqrtRatioNext, liquidity);
            && available.Ok? && r.value.amountOut == (if available.value > wanted then wanted else available.value)
            && Ok(r.value.feeAmount) == MulDivRoundingUp(r.value.amountIn, feePips, PIPS - feePips)
            && (if Releases(zeroForOne, current, target, liquidity, wanted + 1) then
                  Ok(r.value.sqrtRatioNext) == GetNextSqrtPriceFromOutput(current, liquidity, wanted, zeroForOne)
                else r.value.sqrtRatioNext == target)
  {
    var zeroForOne := current >= target;
    OutputDeltaIsGreatest(zeroForOne, current, target, liquidity, wanted + 1);
    OutputDeltaIsGreatest(zeroForOne, current, target, liquidity, wanted);
    if Releases(zeroForOne, current, target, liquidity, wanted + 1) {
      NextFromOutputIsNearest(zeroForOne, current, liquidity, wanted, target, target);
    }
    var next := if Releases(zeroForOne, current, target, liquidity, wanted + 1)
                then GetNextSqrtPriceFromOutput(current, liquidity, wanted, zeroForOne).value else target;
    InputDeltaIsLeast(zeroForOne, current, next, liquidity, 0);
    OutputDeltaIsGreatest(zeroForOne, current, next, liquidity, 0);
    FeeIsLeast(InputDelta(zeroForOne, current, next, liquidity).value, feePips, 0);
  }

  // An exact-out step never throws and never passes its target. If more than the wanted amount is
  // available before the target it moves to the nearest price that releases it, else to the target.
  lemma ExactOutPrice(current: int, target: int, liquidity: int, wanted: int, feePips: int, p: int)
    requires Priced(current, target, liquidity, feePips) && 0 < wanted
    requires Between(current, p, target)
    ensures var zeroForOne := current >= target;
            var r := ComputeSwapStep(current, target, liquidity, -wanted, feePips);
            && r.Ok? && Between(current, r.value.sqrtRatioNext, target)
            && (if Releases(zeroForOne, current, target, liquidity, wanted + 1) then
                  (Releases(zeroForOne, current, p, liquidity, wanted) <==> Between(r.value.sqrtRatioNext, p, target))
                else r.value.sqrtRatioNext == target)
  {
    var zeroForOne := current >= target;
    ExactOutShape(current, target, liquidity, wanted, feePips);
    if Releases(zeroForOne, current, target, liquidity, wanted + 1) {
      OutputDeltaIsGreatest(zeroForOne, current, target, liquidity, wanted + 1);
      OutputDeltaIsGreatest(zeroForOne, current, target, liquidity, wanted);
      NextFromOutputIsNearest(zeroForOne, current, liquidity, wanted, target, p);
    }
  }

  // The output is the wanted amount, or everything before the target when that is less; the input is
  // the least that pays for the move and the fee the least that gives the pool its share.
  lemma ExactOutAmounts(current: int, target: int, liquidity: int, wanted: int, feePips: int, x: int)
    requires Priced(current, target, liquidity, feePips) && 0 < wanted
    ensures var zeroForOne := current >= target;
            var r := ComputeSwapStep(current, target, liquidity, -wanted, feePips);
            && r.Ok? && 0 <= r.value.amountOut && 0 <= r.value.amountIn && 0 <= r.value.feeAmount
            && (x <= r.value.amountOut <==> x <= wanted && Releases(zeroForOne, current, target, liquidity, x))
            && Releases(zeroForOne, current, r.value.sqrtRatioNext, liquidity, r.value.amountOut)
            && (r.value.amountIn <= x <==> Pays(zeroForOne, current, r.value.sqrtRatioNext, liquidity, x))
            && (r.value.feeAmount <= x <==> (r.value.amountIn + x) * feePips <= x * 1_000_000)
  {
    var zeroForOne := current >= target;
    ExactOutShape(current, target, liquidity, wanted, feePips);
    var step := ComputeSwapStep(current, target, liquidity, -wanted, feePips).value;
    InputDeltaIsLeast(zeroForOne, current, step.sqrtRatioNext, liquidity, x);
    FeeIsLeast(step.amountIn, feePips, x);
    OutputDeltaIsGreatest(zeroForOne, current, step.sqrtRatioNext, liquidity, step.amountOut);
    OutputDeltaIsGreatest(zeroForOne, current, step.sqrtRatioNext, liquidity, wanted);
    OutputDeltaIsGreatest(zeroForOne, current, target, liquidity, x);
    OutputDeltaIsGreatest(zeroForOne, current, target, liquidity, wanted + 1);
    OutputDeltaIsGreatest(zeroForOne, current, target, liquidity, wanted);
    if Releases(zeroForOne, current, target, liquidity, wanted + 1) {
      ExactOutPrice(current, target, liquidity, wanted, feePips, step.sqrtRatioNext);
    }
  }
}
