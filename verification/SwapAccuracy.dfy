/** src/math/uniswap_v3.ts: how close a swap across ticks comes to the trade on the pool's liquidity. */
module SwapAccuracy {
  import opened IntMath
  import opened Outcomes
  import opened SqrtPriceMath
  import opened SwapMath
  import opened TickRatio
  import opened TickMath
  import opened UniswapV3
  import opened SwapAcrossTicks
  import opened TickLedger

  // --- One step ---

  // A step pays within one unit of what its move releases, and charges within two of what is needed to
  // move one unit of price further, or to the target; the fee is its share of the charge, rounded up.
  lemma StepIsTight(current: int, target: int, liquidity: int, amount: int, feePips: int) returns (beyond: int, a: int)
    requires Priced(current, target, liquidity, feePips) && 0 < amount
    ensures var zeroForOne := current >= target;
            var r := ComputeSwapStep(current, target, liquidity, amount, feePips);
            && r.Ok? && Between(current, r.value.sqrtRatioNext, target) && Between(current, beyond, target)
            && var charged := r.value.amountIn + r.value.feeAmount;
            && (beyond == r.value.sqrtRatioNext
                || (charged == amount && beyond == r.value.sqrtRatioNext + if zeroForOne then -1 else 1))
            && Releases(zeroForOne, current, r.value.sqrtRatioNext, liquidity, r.value.amountOut)
            && !Releases(zeroForOne, current, r.value.sqrtRatioNext, liquidity, r.value.amountOut + 1)
            && Pays(zeroForOne, current, r.value.sqrtRatioNext, liquidity, r.value.amountIn)
            && !Pays(zeroForOne, current, beyond, liquidity, a)
            && 1_000_000 * r.value.amountIn <= (1_000_000 - feePips) * charged <= 1_000_000 * (a + 2)
  {
    hide ComputeSwapStep, Pays, Releases;
    ExactInAmounts(current, target, liquidity, amount, feePips, 0);
    var step := ComputeSwapStep(current, target, liquidity, amount, feePips).value;
    var next := step.sqrtRatioNext;
    ExactInPrice(current, target, liquidity, amount, feePips, target);
    ExactInPrice(current, target, liquidity, amount, feePips, next);
    ExactInAmounts(current, target, liquidity, amount, feePips, step.amountOut);
    ExactInAmounts(current, target, liquidity, amount, feePips, step.amountOut + 1);
    ExactInAmounts(current, target, liquidity, amount, feePips, step.amountIn);
    ExactInAmounts(current, target, liquidity, amount, feePips, step.amountIn - 1);
    ExactInAmounts(current, target, liquidity, amount, feePips, step.feeAmount - 1);
    if next == target {
      beyond, a := next, step.amountIn - 1;
    } else {
      beyond, a := next + (if current >= target then -1 else 1), LessFee(amount, feePips);
      ExactInPrice(current, target, liquidity, amount, feePips, beyond);
    }
  }

  // The bounds of a move in terms of its worth, both ways.
  lemma PaysIsWorth(zeroForOne: bool, current: int, p: int, liquidity: int, a: int)
    requires 0 < current && 0 < p
    ensures Pays(zeroForOne, current, p, liquidity, a)
            <==> (if zeroForOne then Worth(liquidity, false, p, current) else Worth(liquidity, true, current, p)) <= a as real
  {
    hide Worth;
    if zeroForOne {
      WorthTimes(liquidity, false, p, current);
      MulStrict(0, p, current);
      CompareScaled(Worth(liquidity, false, p, current), p * current, liquidity * Q96 * (current - p), a);
    } else {
      WorthTimes(liquidity, true, current, p);
      CompareScaled(Worth(liquidity, true, current, p), Q96, liquidity * (p - current), a);
    }
  }

  lemma ReleasesIsWorth(zeroForOne: bool, current: int, p: int, liquidity: int, y: int)
    requires 0 < current && 0 < p
    ensures Releases(zeroForOne, current, p, liquidity, y)
            <==> y as real <= if zeroForOne then Worth(liquidity, true, p, current) else Worth(liquidity, false, current, p)
  {
    hide Worth;
    if zeroForOne {
      WorthTimes(liquidity, true, p, current);
      CompareScaled(Worth(liquidity, true, p, current), Q96, liquidity * (current - p), y);
    } else {
      WorthTimes(liquidity, false, current, p);
      MulStrict(0, current, p);
      CompareScaled(Worth(liquidity, false, current, p), current * p, liquidity * Q96 * (p - current), y);
    }
  }

  // --- Passes and runs ---

  // What lies between two prices, of the token that comes in and of the one that goes out.
  ghost function WayIn(base: int, m: Market, from: int, to: int): real {
    if m.zeroForOne then Height(base, m.ticks, m.sorted, false, from) - Height(base, m.ticks, m.sorted, false, to)
    else Height(base, m.ticks, m.sorted, true, to) - Height(base, m.ticks, m.sorted, true, from)
  }

  ghost function WayOut(base: int, m: Market, from: int, to: int): real {
    if m.zeroForOne then Height(base, m.ticks, m.sorted, true, from) - Height(base, m.ticks, m.sorted, true, to)
    else Height(base, m.ticks, m.sorted, false, to) - Height(base, m.ticks, m.sorted, false, from)
  }

  // Paid is what lies between, less at most k units. Charged, less the fee, covers what lies between,
  // and would not cover the way to `beyond` with 2k units more.
  ghost predicate Accurate(base: int, m: Market, from: int, to: int, beyond: int, charged: int, paid: int, k: nat) {
    && WayOut(base, m, from, to) - k as real <= paid as real <= WayOut(base, m, from, to)
    && 1_000_000.0 * WayIn(base, m, from, to) <= (1_000_000 - m.feePips) as real * charged as real
    && (1_000_000 - m.feePips) as real * charged as real <= 1_000_000.0 * (WayIn(base, m, from, beyond) + (2 * k) as real)
  }

  // The price beyond: where the run ends, or one unit further if the input is used up.
  predicate IsBeyond(zeroForOne: bool, beyond: int, price: int, remaining: int) {
    beyond == price || (remaining == 0 && beyond == price + if zeroForOne then -1 else 1)
  }

  // Up to the target no tick is passed, so what lies between is the worth of the move.
  lemma WayIsWorth(m: Market, s: Progress, p: int)
    requires Ordered(m) && Placed(m, s) && Astride(m, s)
    requires Along(m.zeroForOne, s.price, p) && Along(m.zeroForOne, p, Target(m, s)) && 0 < p
    ensures WayIn(Surplus(m, s), m, s.price, p)
            == if m.zeroForOne then Worth(s.liquidity, false, p, s.price) else Worth(s.liquidity, true, s.price, p)
    ensures WayOut(Surplus(m, s), m, s.price, p)
            == if m.zeroForOne then Worth(s.liquidity, true, p, s.price) else Worth(s.liquidity, false, s.price, p)
  {
    hide Height, RatioOf, Facing, Phi, NetUpTo, Target;
    TargetIsNear(m, s, p);
    HeightIsLinear(Surplus(m, s), m.ticks, m.sorted, true, Min(s.price, p), Max(s.price, p), s.tick);
    HeightIsLinear(Surplus(m, s), m.ticks, m.sorted, false, Min(s.price, p), Max(s.price, p), s.tick);
  }

  lemma PassIsAccurate(m: Market, s: Progress) returns (beyond: int)
    requires Ordered(m) && Placed(m, s) && Astride(m, s) && s.liquidity > 0 && Running(s)
    ensures var r := Iterate(m, s);
            && r.Ok? && IsBeyond(m.zeroForOne, beyond, r.value.price, r.value.remaining)
            && Accurate(Surplus(m, s), m, s.price, r.value.price, beyond,
                        s.remaining - r.value.remaining, r.value.out - s.out, 1)
  {
    hide Iterate, RatioOf, Facing, Pays, Releases, ComputeSwapStep, Target, TicksAhead, Accurate, Surplus, Limit;
    PassKeeps(m, s);
    var step := PassStep(m, s);
    TargetTells(m, s);
    var a;
    beyond, a := StepIsTight(s.price, Target(m, s), s.liquidity, s.remaining, m.feePips);
    if s.price == Target(m, s) {
      StandingStill(s.price, s.liquidity, s.remaining, m.feePips);
      beyond := s.price;
      StillIsAccurate(m, s);
    } else {
      StepIsAccurate(m, s, step, beyond, a);
    }
  }

  lemma StillIsAccurate(m: Market, s: Progress)
    ensures Accurate(Surplus(m, s), m, s.price, s.price, s.price, 0, 0, 1)
  {
  }

  lemma StepIsAccurate(m: Market, s: Progress, step: SwapStep, beyond: int, a: int)
    requires Ordered(m) && Placed(m, s) && Astride(m, s)
    requires 0 < step.sqrtRatioNext && 0 < beyond
    requires Along(m.zeroForOne, s.price, step.sqrtRatioNext) && Along(m.zeroForOne, step.sqrtRatioNext, Target(m, s))
    requires Along(m.zeroForOne, s.price, beyond) && Along(m.zeroForOne, beyond, Target(m, s))
    requires Releases(m.zeroForOne, s.price, step.sqrtRatioNext, s.liquidity, step.amountOut)
    requires !Releases(m.zeroForOne, s.price, step.sqrtRatioNext, s.liquidity, step.amountOut + 1)
    requires Pays(m.zeroForOne, s.price, step.sqrtRatioNext, s.liquidity, step.amountIn)
    requires !Pays(m.zeroForOne, s.price, beyond, s.liquidity, a)
    requires 1_000_000 * step.amountIn <= (1_000_000 - m.feePips) * (step.amountIn + step.feeAmount) <= 1_000_000 * (a + 2)
    ensures Accurate(Surplus(m, s), m, s.price, step.sqrtRatioNext, beyond,
                     step.amountIn + step.feeAmount, step.amountOut, 1)
  {
    hide Surplus, Target, Pays, Releases, Worth, WayIn, WayOut, Facing, Limit;
    WayIsWorth(m, s, step.sqrtRatioNext);
    WayIsWorth(m, s, beyond);
    PaysIsWorth(m.zeroForOne, s.price, step.sqrtRatioNext, s.liquidity, step.amountIn);
    PaysIsWorth(m.zeroForOne, s.price, beyond, s.liquidity, a);
    ReleasesIsWorth(m.zeroForOne, s.price, step.sqrtRatioNext, s.liquidity, step.amountOut);
    ReleasesIsWorth(m.zeroForOne, s.price, step.sqrtRatioNext, s.liquidity, step.amountOut + 1);
    ProductAsReal(1_000_000 - m.feePips, step.amountIn + step.feeAmount);
  }

  lemma AccurateJoins(base: int, m: Market, a: int, b: int, c: int, beyond: int,
                      charged1: int, paid1: int, charged2: int, paid2: int, k: nat)
    requires Accurate(base, m, a, b, b, charged1, paid1, 1) && Accurate(base, m, b, c, beyond, charged2, paid2, k)
    ensures Accurate(base, m, a, c, beyond, charged1 + charged2, paid1 + paid2, k + 1)
  {
    hide Height;
  }

  // The loop goes on only across an initialised tick, which it counts.
  lemma GoesOnByCrossing(m: Market, s: Progress)
    requires Ordered(m) && forall t :: t in m.sorted ==> t in m.ticks
    requires Iterate(m, s).Ok? && !Iterate(m, s).value.stopped
    ensures Iterate(m, s).value.crossed == s.crossed + 1
  {
    hide ComputeSwapStep, RatioOf, GetSqrtRatioAtTick, TickSearch;
  }

  // Over any run: one unit of the payment, and two of the charge, for every tick crossed and the last range.
  lemma {:induction false} RunIsAccurate(m: Market, s: Progress, n: nat) returns (beyond: int)
    requires Ordered(m) && Placed(m, s) && Astride(m, s) && !s.stopped && s.liquidity > 0
    requires forall t :: t in m.sorted ==> t in m.ticks
    ensures var r := Reach(PassOf(m), s, n);
            && r.Ok? && s.crossed <= r.value.crossed && r.value.remaining <= s.remaining
            && IsBeyond(m.zeroForOne, beyond, r.value.price, r.value.remaining)
            && Accurate(Surplus(m, s), m, s.price, r.value.price, beyond,
                        s.remaining - r.value.remaining, r.value.out - s.out, r.value.crossed - s.crossed + 1)
    decreases n
  {
    hide Iterate, Reach, Placed, Ordered, OnEdge, NetUpTo, TicksAhead, Limit, Facing, Height, Accurate;
    if n == 0 || !Running(s) {
      ReachStopped(PassOf(m), s, n);
      beyond := s.price;
      StillIsAccurate(m, s);
    } else {
      PassKeeps(m, s);
      PassKeepsLiquidity(m, s);
      ReachStep(PassOf(m), s, n);
      beyond := PassIsAccurate(m, s);
      CountsUp(m, s);
      var e := Iterate(m, s).value;
      if e.stopped || n == 1 || !Running(e) {
        ReachStopped(PassOf(m), e, n - 1);
        Slackens(Surplus(m, s), m, s.price, e.price, beyond,
                 s.remaining - e.remaining, e.out - s.out, e.crossed - s.crossed + 1);
      } else {
        GoesOnByCrossing(m, s);
        beyond := RunIsAccurate(m, e, n - 1);
        var r := Reach(PassOf(m), e, n - 1).value;
        AccurateJoins(Surplus(m, s), m, s.price, e.price, r.price, beyond, s.remaining - e.remaining, e.out - s.out,
                      e.remaining - r.remaining, r.out - e.out, r.crossed - e.crossed + 1);
      }
    }
  }

  lemma CountsUp(m: Market, s: Progress)
    ensures Iterate(m, s).Ok? ==> s.crossed <= Iterate(m, s).value.crossed
  {
    hide ComputeSwapStep, RatioOf, GetSqrtRatioAtTick, TickSearch;
  }

  lemma Slackens(base: int, m: Market, from: int, to: int, beyond: int, charged: int, paid: int, k: nat)
    requires Accurate(base, m, from, to, beyond, charged, paid, 1) && 1 <= k
    ensures Accurate(base, m, from, to, beyond, charged, paid, k)
  {
    hide Height;
  }

  // --- The swap as a whole ---

  // With fewer than 500 initialised ticks ahead, a swap is the trade on the pool's liquidity: it pays
  // what lies between its two prices and charges, the fee left out, what it takes to get there, within
  // the units stated for every tick passed and for the last range. The end is that of the whole run.
  lemma SwapIsAccurate(state: PoolState, sorted: seq<int>, x: int, zeroForOne: bool, fee: Option<int>)
    returns (end: Progress, beyond: int)
    requires Legal(state, sorted, fee) && WellPlaced(state, sorted, zeroForOne) && 0 < x
    requires Facing(sorted, state.sqrtPriceX96.value, FallbackTick(state), !zeroForOne)
    requires forall t :: t in sorted ==> t in state.ticks
    requires TicksAhead(sorted, FallbackTick(state), zeroForOne) < 500
    ensures var m := Market(state.ticks, sorted, zeroForOne, fee.value);
            var tick := if state.tick.Some? then state.tick.value else 0;
            var price, base := state.sqrtPriceX96.value, state.liquidity.value - NetUpTo(state.ticks, sorted, tick);
            var passed := Passed(sorted, tick, zeroForOne, end.price);
            && Swap(state, sorted, x, zeroForOne, fee)
               == Ok(SwapResult(end.out, end.price, end.tick, 130_000 + 30_000 * passed))
            && 0 <= end.remaining <= x && IsBeyond(zeroForOne, beyond, end.price, end.remaining)
            && Accurate(base, m, price, end.price, beyond, x - end.remaining, end.out, passed + 1)
            && (end.remaining == 0 || end.liquidity <= 0 || end.price == Limit(zeroForOne))
  {
    hide Reach, RatioOf, Facing, Passed, Spent, TicksAhead, Iterate, Accurate, NetUpTo;
    var m := Market(state.ticks, sorted, zeroForOne, fee.value);
    var s := Start(state, x, fee);
    SwapRunsToItsEnd(state, sorted, x, zeroForOne, fee, 500);
    RunKeeps(m, s, 500);
    RunCounts(m, s, 500);
    beyond := RunIsAccurate(m, s, 500);
    end := Reach(PassOf(m), s, 500).value;
  }
}
