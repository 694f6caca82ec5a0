/** What every pass and every run of the Uniswap V3 swap loop keeps. */
module SwapAcrossTicks {
  import opened IntMath
  import opened SqrtPriceMath
  import opened SwapMath
  import opened TickRatio
  import opened TickMath
  import opened UniswapV3
  import opened Outcomes

  // The ticks are in order and legal, and the fee is below one.
  predicate Ordered(m: Market) {
    Sorted(m.sorted) && (forall t :: t in m.sorted ==> InTickRange(t)) && 0 <= m.feePips < PIPS
  }

  // No initialised tick the trade would meet lies behind the price. The tick itself need not be that of
  // the price: a crossing downwards leaves it one below.
  ghost predicate Facing(sorted: seq<int>, price: int, tick: int, zeroForOne: bool) {
    forall n :: n in sorted && Ahead(n, tick, zeroForOne) ==> Along(zeroForOne, price, RatioOf(n))
  }

  // The price is legal, has not passed the limit of the trade direction, and faces the ticks ahead.
  ghost predicate Placed(m: Market, s: Progress) {
    && 0 <= s.remaining
    && MIN_SQRT_RATIO <= s.price < MAX_SQRT_RATIO
    && Along(m.zeroForOne, s.price, Limit(m.zeroForOne))
    && Facing(m.sorted, s.price, s.tick, m.zeroForOne)
  }

  // Where the pass aims at.
  function Target(m: Market, s: Progress): int {
    Clamp(m.zeroForOne, match NextTick(m.sorted, s.tick, m.zeroForOne) case None => Limit(m.zeroForOne) case Some(n) => RatioOf(n))
  }

  // The next boundary is in the direction of the trade and within the limit.
  lemma TargetIsAhead(m: Market, s: Progress)
    requires Ordered(m) && Placed(m, s)
    ensures var next := NextTick(m.sorted, s.tick, m.zeroForOne);
            && NextPrice(m, next) == Ok(if next.Some? then RatioOf(next.value) else Limit(m.zeroForOne))
            && Along(m.zeroForOne, s.price, Target(m, s)) && Along(m.zeroForOne, Target(m, s), Limit(m.zeroForOne))
  {
    hide GetSqrtRatioAtTick, RatioOf;
    var next := NextTick(m.sorted, s.tick, m.zeroForOne);
    if next.Some? {
      RatioRange(next.value);
    }
  }

  // The swap step of a pass: it succeeds, moves toward its target and spends what it charges.
  lemma StepOfPass(m: Market, s: Progress)
    requires Ordered(m) && Placed(m, s) && s.liquidity > 0
    ensures var r := ComputeSwapStep(s.price, Target(m, s), s.liquidity, s.remaining, m.feePips);
            && r.Ok? && Along(m.zeroForOne, s.price, r.value.sqrtRatioNext)
            && Along(m.zeroForOne, r.value.sqrtRatioNext, Target(m, s))
            && 0 <= r.value.amountIn + r.value.feeAmount <= s.remaining && 0 <= r.value.amountOut
            && (r.value.sqrtRatioNext != Target(m, s) ==> r.value.amountIn + r.value.feeAmount == s.remaining)
  {
    hide ComputeSwapStep, Target, RatioOf;
    TargetIsAhead(m, s);
    ExactInPrice(s.price, Target(m, s), s.liquidity, s.remaining, m.feePips, s.price);
    ExactInAmounts(s.price, Target(m, s), s.liquidity, s.remaining, m.feePips, 0);
  }

  // A pass never throws. The pool faces the ticks ahead again, and those behind too; the price stays
  // within the limit and moves only in the direction of the trade; the pass never overspends and only
  // adds to the output. If the loop goes on, fewer ticks are ahead; if it stops, the input is used up,
  // the liquidity is gone or the price limit is reached.
  lemma PassKeeps(m: Market, s: Progress)
    requires Ordered(m) && Placed(m, s) && s.liquidity > 0 && Running(s)
    ensures var r := Iterate(m, s);
            && r.Ok? && Placed(m, r.value) && Facing(m.sorted, r.value.price, r.value.tick, !m.zeroForOne)
            && Along(m.zeroForOne, s.price, r.value.price)
            && 0 <= r.value.remaining <= s.remaining && s.out <= r.value.out
            && (!r.value.stopped ==>
                  r.value.liquidity > 0
                  && TicksAhead(m.sorted, r.value.tick, m.zeroForOne) < TicksAhead(m.sorted, s.tick, m.zeroForOne))
            && (r.value.stopped ==> r.value.liquidity <= 0 || r.value.remaining == 0 || r.value.price == Limit(m.zeroForOne))
  {
    hide ComputeSwapStep, RatioOf, GetSqrtRatioAtTick, TicksAhead;
    TargetIsAhead(m, s);
    StepOfPass(m, s);
    var next := NextTick(m.sorted, s.tick, m.zeroForOne);
    var nextPrice := NextPrice(m, next).value;
    var step := ComputeSwapStep(s.price, Target(m, s), s.liquidity, s.remaining, m.feePips).value;
    var moved := s.(price := step.sqrtRatioNext,
                    remaining := s.remaining - (step.amountIn + step.feeAmount),
                    out := s.out + step.amountOut);
    if step.sqrtRatioNext == nextPrice && next.Some? {
      CrossingKeeps(m, moved, next.value);
      FewerTicksAhead(m.sorted, s.tick, Cross(m, moved, next.value).tick, m.zeroForOne);
    } else {
      if next.Some? {
        RatioRange(next.value);
      }
      SettlingKeeps(m, moved, next);
    }
  }

  lemma CrossingKeeps(m: Market, moved: Progress, n: int)
    requires Ordered(m) && n in m.sorted && moved.price == RatioOf(n) && 0 <= moved.remaining
    requires MIN_SQRT_RATIO <= moved.price < MAX_SQRT_RATIO && Along(m.zeroForOne, moved.price, Limit(m.zeroForOne))
    ensures var r := Cross(m, moved, n);
            Placed(m, r) && Facing(m.sorted, r.price, r.tick, !m.zeroForOne)
  {
    hide GetSqrtRatioAtTick, RatioOf;
    forall t | t in m.sorted
      ensures t <= n <==> RatioOf(t) <= RatioOf(n)
      ensures n <= t <==> RatioOf(n) <= RatioOf(t)
    {
      RatioOrder(t, n);
      RatioOrder(n, t);
    }
  }

  // The search for the tick cannot be handed empty bounds: only a next tick of MIN_TICK could do that.
  lemma SettlingKeeps(m: Market, moved: Progress, next: Option<int>)
    requires Ordered(m) && 0 <= moved.remaining
    requires MIN_SQRT_RATIO <= moved.price < MAX_SQRT_RATIO && Along(m.zeroForOne, moved.price, Limit(m.zeroForOne))
    requires next.Some? ==> InTickRange(next.value) && Ahead(next.value, moved.tick, m.zeroForOne)
    requires next.Some? && !m.zeroForOne ==> MIN_TICK < next.value
    ensures var r := Settle(m, moved, next);
            && r == Ok(moved.(tick := TickAt(moved.price), stopped := true))
            && Placed(m, r.value) && Facing(m.sorted, r.value.price, r.value.tick, !m.zeroForOne)
            && GreatestTick(r.value.price, r.value.tick)
  {
    hide GetSqrtRatioAtTick, RatioOf;
    var t := TickAt(moved.price);
    forall n | n in m.sorted
      ensures n <= t ==> RatioOf(n) <= moved.price
      ensures t < n ==> moved.price < RatioOf(n)
    {
      RatioOrder(n, t);
    }
  }

  // --- Pools with a tick on the wrong side ---

  // The target tells: it lies in the direction of the trade exactly when the pool faces its ticks.
  lemma TargetTells(m: Market, s: Progress)
    requires Ordered(m) && 0 <= s.remaining && MIN_SQRT_RATIO <= s.price < MAX_SQRT_RATIO
    ensures Placed(m, s) <==> Along(m.zeroForOne, s.price, Target(m, s))
    ensures MIN_SQRT_RATIO <= Target(m, s) <= MAX_SQRT_RATIO
    ensures NextPrice(m, NextTick(m.sorted, s.tick, m.zeroForOne)).Ok?
    ensures Target(m, s) == Clamp(m.zeroForOne, NextPrice(m, NextTick(m.sorted, s.tick, m.zeroForOne)).value)
  {
    hide GetSqrtRatioAtTick, RatioOf;
    var next := NextTick(m.sorted, s.tick, m.zeroForOne);
    if next.Some? {
      RatioRange(next.value);
      forall n | n in m.sorted && Ahead(n, s.tick, m.zeroForOne)
        ensures Along(m.zeroForOne, RatioOf(next.value), RatioOf(n))
      {
        RatioOrder(n, next.value);
        RatioOrder(next.value, n);
      }
    }
  }

  // Otherwise a pass that does not throw moves the price against the trade, if at all.
  lemma PassGoesAstray(m: Market, s: Progress)
    requires Ordered(m) && 0 <= s.remaining && MIN_SQRT_RATIO <= s.price < MAX_SQRT_RATIO && s.liquidity > 0
    requires !Placed(m, s)
    ensures Iterate(m, s).Ok? ==> Along(!m.zeroForOne, s.price, Iterate(m, s).value.price)
  {
    hide ComputeSwapStep, NextPrice, Placed, Target, TickSearch;
    TargetTells(m, s);
    ExactInPrice(s.price, Target(m, s), s.liquidity, s.remaining, m.feePips, s.price);
  }

  // An amount that is just enough for the target.
  lemma JustEnough(current: int, target: int, liquidity: int, feePips: int) returns (x: int)
    requires Priced(current, target, liquidity, feePips) && current != target
    ensures x > 0
    ensures var r := ComputeSwapStep(current, target, liquidity, x, feePips);
            r.Ok? && r.value.sqrtRatioNext == target && r.value.amountIn + r.value.feeAmount == x
  {
    hide ComputeSwapStep, Pays, LessFee;
    var zeroForOne := current >= target;
    InputDeltaIsLeast(zeroForOne, current, target, liquidity, 0);
    var d := InputDelta(zeroForOne, current, target, liquidity).value;
    InputDeltaIsLeast(zeroForOne, current, target, liquidity, d);
    assert 0 < d by { MoveCosts(zeroForOne, current, target, liquidity); }
    var y := d * PIPS;
    assert d <= LessFee(y, feePips) by { PlentyAfterFee(d, feePips); }
    PaysMore(zeroForOne, current, target, liquidity, d, LessFee(y, feePips));
    ExactInPrice(current, target, liquidity, y, feePips, target);
    ExactInAmounts(current, target, liquidity, y, feePips, 0);
    var step := ComputeSwapStep(current, target, liquidity, y, feePips).value;
    assert 0 < step.amountIn by { MoveCosts(zeroForOne, current, target, liquidity); }
    x := step.amountIn + step.feeAmount;
    ExactInAmounts(current, target, liquidity, y, feePips, step.amountIn);
    FeeLeavesInput(step.amountIn, step.feeAmount, feePips);
    PaysMore(zeroForOne, current, target, liquidity, step.amountIn, LessFee(x, feePips));
    ExactInPrice(current, target, liquidity, x, feePips, target);
    MoreInputMoreOutput(current, target, liquidity, x, y, feePips);
  }

  lemma MoveCosts(zeroForOne: bool, current: int, p: int, liquidity: int)
    requires 0 < current && 0 < p && 0 < liquidity && current != p && Along(zeroForOne, current, p)
    ensures !Pays(zeroForOne, current, p, liquidity, 0)
  {
    if zeroForOne {
      MulStrict(0, liquidity * Q96, current - p);
    } else {
      MulStrict(0, liquidity, p - current);
    }
  }

  lemma PlentyAfterFee(d: int, feePips: int)
    requires 0 < d && 0 <= feePips < PIPS
    ensures d <= LessFee(d * PIPS, feePips)
  {
    Regroup(d, PIPS, PIPS - feePips);
    MulMono(1, PIPS - feePips, d);
    assert d * PIPS * (PIPS - feePips) == d * (PIPS - feePips) * PIPS;
  }

  lemma FeeLeavesInput(amountIn: int, fee: int, feePips: int)
    requires (amountIn + fee) * feePips <= fee * PIPS
    ensures amountIn <= LessFee(amountIn + fee, feePips)
  {
    assert (amountIn + fee) * (PIPS - feePips) == amountIn * PIPS + (fee * PIPS - (amountIn + fee) * feePips);
  }

  // For some amount it does: the pass throws, or ends on the wrong side with the input used up.
  lemma SomeAmountStrays(m: Market, s: Progress) returns (x: int)
    requires Ordered(m) && 0 <= s.remaining && MIN_SQRT_RATIO <= s.price < MAX_SQRT_RATIO && s.liquidity > 0
    requires !Placed(m, s)
    ensures x > 0
    ensures var r := Iterate(m, s.(remaining := x));
            r.Ok? ==> r.value.remaining == 0 && !Along(m.zeroForOne, s.price, r.value.price)
  {
    hide ComputeSwapStep, NextPrice, Placed, Target, TickSearch;
    TargetTells(m, s);
    x := JustEnough(s.price, Target(m, s), s.liquidity, m.feePips);
  }

  // --- Whole runs ---

  // What the first n passes charge, fees included.
  ghost function Spent(m: Market, s: Progress, n: nat): int
    decreases n
  {
    if n == 0 || !Running(s) || Iterate(m, s).Err? then 0
    else
      var e := Iterate(m, s).value;
      match NextPrice(m, NextTick(m.sorted, s.tick, m.zeroForOne))
      case Err(_) => 0
      case Ok(price) =>
        match ComputeSwapStep(s.price, Clamp(m.zeroForOne, price), s.liquidity, s.remaining, m.feePips)
        case Err(_) => 0
        case Ok(step) => step.amountIn + step.feeAmount + Spent(m, e, n - 1)
  }

  lemma PassSpends(m: Market, s: Progress)
    ensures Iterate(m, s).Ok? ==>
              var price := NextPrice(m, NextTick(m.sorted, s.tick, m.zeroForOne));
              && price.Ok?
              && var step := ComputeSwapStep(s.price, Clamp(m.zeroForOne, price.value), s.liquidity, s.remaining, m.feePips);
              step.Ok? && Iterate(m, s).value.remaining + step.value.amountIn + step.value.feeAmount == s.remaining
  {
    hide ComputeSwapStep, GetSqrtRatioAtTick;
  }

  // From a start that faces its ticks no number of passes throws; the price only moves with the trade
  // and stays within the limit, and what is left plus what was spent is what came in. After the first
  // pass the ticks behind are faced too.
  lemma {:induction false} RunKeeps(m: Market, s: Progress, n: nat)
    requires Ordered(m) && Placed(m, s) && (s.stopped || s.liquidity > 0)
    ensures var r := Reach(PassOf(m), s, n);
            && r.Ok? && Placed(m, r.value) && (r.value.stopped || r.value.liquidity > 0)
            && ((n > 0 && Running(s)) || Facing(m.sorted, s.price, s.tick, !m.zeroForOne) ==>
                  Facing(m.sorted, r.value.price, r.value.tick, !m.zeroForOne))
            && Along(m.zeroForOne, s.price, r.value.price)
            && 0 <= r.value.remaining && s.out <= r.value.out
            && Spent(m, s, n) + r.value.remaining == s.remaining
    decreases n
  {
    hide Iterate, RatioOf;
    if n > 0 && Running(s) {
      PassKeeps(m, s);
      PassSpends(m, s);
      RunKeeps(m, Iterate(m, s).value, n - 1);
    }
  }

  // The ticks ahead bound the run: one pass per tick and one more always end the loop, so the cap of
  // 500 passes decides nothing for a pool with fewer initialised ticks ahead. The run ends because
  // the input is used up, the liquidity is gone or the price limit is reached.
  lemma {:induction false} RunEnds(m: Market, s: Progress, n: nat)
    requires Ordered(m) && Placed(m, s) && s.liquidity > 0 && !s.stopped
    requires TicksAhead(m.sorted, s.tick, m.zeroForOne) < n
    ensures var r := Reach(PassOf(m), s, n);
            && r.Ok? && !Running(r.value)
            && (r.value.remaining == 0 || r.value.liquidity <= 0 || r.value.price == Limit(m.zeroForOne))
    decreases n
  {
    hide Iterate, RatioOf, TicksAhead;
    if Running(s) {
      PassKeeps(m, s);
      var e := Iterate(m, s).value;
      if e.stopped {
        assert Reach(PassOf(m), e, n - 1) == Ok(e);
      } else {
        RunEnds(m, e, n - 1);
      }
    }
  }

  // --- Monotone quotes ---

  // Two swaps that differ only in what is left to spend; the second has at least as much.
  predicate AtLeast(a: Progress, b: Progress) {
    b == a.(remaining := b.remaining) && a.remaining <= b.remaining
  }

  // A pass with more to spend pays at least as much; the poorer swap either keeps pace with the
  // richer one or has nothing left.
  lemma PassIsMonotone(m: Market, a: Progress, b: Progress)
    requires Ordered(m) && Placed(m, a) && Placed(m, b) && AtLeast(a, b) && a.liquidity > 0
    requires Running(a) && Running(b)
    ensures Iterate(m, a).Ok? && Iterate(m, b).Ok?
    ensures Iterate(m, a).value.out <= Iterate(m, b).value.out
    ensures Iterate(m, a).value.remaining == 0 || AtLeast(Iterate(m, a).value, Iterate(m, b).value)
  {
    hide ComputeSwapStep, RatioOf, GetSqrtRatioAtTick;
    PassKeeps(m, a);
    PassKeeps(m, b);
    TargetIsAhead(m, a);
    StepOfPass(m, a);
    var target := Target(m, a);
    MoreInputMoreOutput(a.price, target, a.liquidity, a.remaining, b.remaining, m.feePips);
  }

  // The quote is monotone: spending more of the input token never yields less of the other, over any
  // number of ticks and with any fee.
  lemma {:induction false} RunIsMonotone(m: Market, a: Progress, b: Progress, n: nat)
    requires Ordered(m) && Placed(m, a) && Placed(m, b) && AtLeast(a, b) && (a.stopped || a.liquidity > 0)
    ensures Reach(PassOf(m), a, n).Ok? && Reach(PassOf(m), b, n).Ok?
    ensures Reach(PassOf(m), a, n).value.out <= Reach(PassOf(m), b, n).value.out
    decreases n
  {
    hide Iterate, Reach, Placed, Ordered, Spent, TicksAhead, Along, Limit;
    RunKeeps(m, a, n);
    RunKeeps(m, b, n);
    if n == 0 || !Running(a) {
      ReachStopped(PassOf(m), a, n);
    } else {
      PassIsMonotone(m, a, b);
      PassKeeps(m, a);
      PassKeeps(m, b);
      ReachStep(PassOf(m), a, n);
      ReachStep(PassOf(m), b, n);
      var x, y := Iterate(m, a).value, Iterate(m, b).value;
      if x.remaining == 0 {
        ReachStopped(PassOf(m), x, n - 1);
        RunKeeps(m, y, n - 1);
      } else {
        RunIsMonotone(m, x, y, n - 1);
      }
    }
  }

  lemma ReachStopped(pass: Progress -> Result<Progress>, s: Progress, n: nat)
    requires n == 0 || !Running(s)
    ensures Reach(pass, s, n) == Ok(s)
  {
  }

  lemma ReachStep(pass: Progress -> Result<Progress>, s: Progress, n: nat)
    requires n > 0 && Running(s) && pass(s).Ok?
    ensures Reach(pass, s, n) == Reach(pass, pass(s).value, n - 1)
  {
  }

  // How many of the ticks ahead of a start lie at or before a price, in the direction of the trade.
  ghost function Passed(sorted: seq<int>, tick: int, zeroForOne: bool, price: int): nat {
    if sorted == [] then 0
    else
      var t := sorted[|sorted| - 1];
      Passed(sorted[..|sorted| - 1], tick, zeroForOne, price)
      + (if Ahead(t, tick, zeroForOne) && Along(zeroForOne, RatioOf(t), price) then 1 else 0)
  }

  lemma {:induction false} PassedNone(sorted: seq<int>, tick: int, zeroForOne: bool, price: int)
    requires forall t :: t in sorted && Ahead(t, tick, zeroForOne) ==> !Along(zeroForOne, RatioOf(t), price)
    ensures Passed(sorted, tick, zeroForOne, price) == 0
  {
    hide RatioOf;
    if sorted != [] {
      var rest, t := sorted[..|sorted| - 1], sorted[|sorted| - 1];
      assert sorted == rest + [t] && t in sorted;
      assert forall u :: u in rest ==> u in sorted;
      PassedNone(rest, tick, zeroForOne, price);
    }
  }

  lemma {:induction false} PassedSame(sorted: seq<int>, a: int, b: int, zeroForOne: bool, price: int)
    requires forall t :: t in sorted ==> (Ahead(t, a, zeroForOne) <==> Ahead(t, b, zeroForOne))
    ensures Passed(sorted, a, zeroForOne, price) == Passed(sorted, b, zeroForOne, price)
  {
    hide RatioOf;
    if sorted != [] {
      var rest, t := sorted[..|sorted| - 1], sorted[|sorted| - 1];
      assert sorted == rest + [t] && t in sorted;
      assert forall u :: u in rest ==> u in sorted;
      PassedSame(rest, a, b, zeroForOne, price);
    }
  }

  // Crossing the next tick is passing one more.
  lemma {:induction false} PassedOneMore(sorted: seq<int>, a: int, b: int, n: int, zeroForOne: bool, price: int)
    requires Sorted(sorted) && n in sorted && Ahead(n, a, zeroForOne) && !Ahead(n, b, zeroForOne)
    requires forall t :: t in sorted && t != n ==> (Ahead(t, a, zeroForOne) <==> Ahead(t, b, zeroForOne))
    requires Along(zeroForOne, RatioOf(n), price)
    ensures Passed(sorted, a, zeroForOne, price) == Passed(sorted, b, zeroForOne, price) + 1
  {
    hide RatioOf;
    var rest, t := sorted[..|sorted| - 1], sorted[|sorted| - 1];
    assert sorted == rest + [t] && t in sorted;
    assert forall u :: u in rest ==> u in sorted;
    if t == n {
      assert forall u :: u in rest ==> u < n;
      PassedSame(rest, a, b, zeroForOne, price);
    } else {
      PassedOneMore(rest, a, b, n, zeroForOne, price);
    }
  }

  // A pass counts the tick it crosses, if it crosses one.
  lemma PassCounts(m: Market, s: Progress, price: int)
    requires Ordered(m) && Placed(m, s) && s.liquidity > 0 && Running(s)
    requires forall t :: t in m.sorted ==> t in m.ticks
    requires Iterate(m, s).Ok? && Along(m.zeroForOne, Iterate(m, s).value.price, price)
    requires Iterate(m, s).value.stopped && Iterate(m, s).value.liquidity > 0 ==> price == Iterate(m, s).value.price
    ensures var r := Iterate(m, s).value;
            || (Passed(m.sorted, s.tick, m.zeroForOne, price) == Passed(m.sorted, r.tick, m.zeroForOne, price) + 1
                && Passed(m.sorted, r.tick, m.zeroForOne, r.price) == 0
                && r.crossed == s.crossed + 1 && r.stopped == (r.liquidity <= 0))
            || (Passed(m.sorted, s.tick, m.zeroForOne, price) == 0 && r.crossed == s.crossed && r.stopped)
  {
    hide ComputeSwapStep, RatioOf, GetSqrtRatioAtTick, TickSearch, Passed;
    TargetIsAhead(m, s);
    StepOfPass(m, s);
    var next := NextTick(m.sorted, s.tick, m.zeroForOne);
    var r := Iterate(m, s).value;
    if r.crossed == s.crossed {
      forall t | t in m.sorted && Ahead(t, s.tick, m.zeroForOne)
        ensures !Along(m.zeroForOne, RatioOf(t), price)
      {
        RatioOrder(t, next.value);
        RatioOrder(next.value, t);
      }
      PassedNone(m.sorted, s.tick, m.zeroForOne, price);
    } else {
      PassedOneMore(m.sorted, s.tick, r.tick, next.value, m.zeroForOne, price);
      forall t | t in m.sorted && Ahead(t, r.tick, m.zeroForOne)
        ensures !Along(m.zeroForOne, RatioOf(t), r.price)
      {
        RatioOrder(t, next.value);
        RatioOrder(next.value, t);
      }
      PassedNone(m.sorted, r.tick, m.zeroForOne, r.price);
    }
  }

  // So a run counts the ticks it has passed when it ends.
  lemma {:induction false} RunCounts(m: Market, s: Progress, n: nat)
    requires Ordered(m) && Placed(m, s) && s.liquidity > 0 && Running(s) && n > 0
    requires forall t :: t in m.sorted ==> t in m.ticks
    ensures var r := Reach(PassOf(m), s, n);
            r.Ok? && r.value.crossed == s.crossed + Passed(m.sorted, s.tick, m.zeroForOne, r.value.price)
    decreases n
  {
    hide Iterate, Reach, Placed, Ordered, Passed, Spent, TicksAhead, Limit, Facing;
    PassKeeps(m, s);
    ReachStep(PassOf(m), s, n);
    var e := Iterate(m, s).value;
    if n == 1 || !Running(e) {
      ReachStopped(PassOf(m), e, n - 1);
      PassCounts(m, s, e.price);
    } else {
      RunCounts(m, e, n - 1);
      RunKeeps(m, e, n - 1);
      PassCounts(m, s, Reach(PassOf(m), e, n - 1).value.price);
    }
  }

  // --- The swap as a whole ---

  // The initialised ticks are in order and legal, and the swap is one the program goes on with.
  predicate Legal(state: PoolState, sorted: seq<int>, fee: Option<int>) {
    Sorted(sorted) && (forall t :: t in sorted ==> InTickRange(t)) && Quotable(state, 1, fee)
  }

  // What a caller can check: every initialised tick the trade would meet lies ahead of the price, and
  // the price has not passed the limit.
  ghost predicate WellPlaced(state: PoolState, sorted: seq<int>, zeroForOne: bool)
    requires state.sqrtPriceX96.Some?
  {
    var price := state.sqrtPriceX96.value;
    Along(zeroForOne, price, Limit(zeroForOne)) && Facing(sorted, price, FallbackTick(state), zeroForOne)
  }

  // A tick of the price, or one below where the price lies on a boundary, faces both ways.
  lemma BracketFaces(sorted: seq<int>, price: int, tick: int)
    requires forall t :: t in sorted ==> InTickRange(t)
    requires MIN_TICK <= tick < MAX_TICK && RatioOf(tick) <= price <= RatioOf(tick + 1)
    ensures Facing(sorted, price, tick, true) && Facing(sorted, price, tick, false)
  {
    hide GetSqrtRatioAtTick, RatioOf;
    forall n | n in sorted
      ensures n <= tick ==> RatioOf(n) <= RatioOf(tick)
      ensures tick < n ==> RatioOf(tick + 1) <= RatioOf(n)
    {
      RatioOrder(n, tick);
      RatioOrder(tick + 1, n);
    }
  }

  // On such a pool the simulation never throws, the price moves only with the trade and within the
  // limit, a larger input never quotes less, and the pool left behind faces its ticks both ways.
  lemma SwapIsSound(state: PoolState, sorted: seq<int>, x: int, y: int, zeroForOne: bool, fee: Option<int>)
    requires Legal(state, sorted, fee) && WellPlaced(state, sorted, zeroForOne) && 0 < x <= y
    ensures var r := Swap(state, sorted, x, zeroForOne, fee);
            && r.Ok? && 0 <= r.value.amountOut
            && Along(zeroForOne, state.sqrtPriceX96.value, r.value.sqrtPriceX96After)
            && Along(zeroForOne, r.value.sqrtPriceX96After, Limit(zeroForOne))
            && Facing(sorted, r.value.sqrtPriceX96After, r.value.tickAfter, true)
            && Facing(sorted, r.value.sqrtPriceX96After, r.value.tickAfter, false)
            && var q := Swap(state, sorted, y, zeroForOne, fee);
            q.Ok? && r.value.amountOut <= q.value.amountOut
  {
    hide Reach, RatioOf, GetSqrtRatioAtTick, Facing;
    var m := Market(state.ticks, sorted, zeroForOne, fee.value);
    RunKeeps(m, Start(state, x, fee), MAX_ITERATIONS);
    RunKeeps(m, Start(state, y, fee), MAX_ITERATIONS);
    RunIsMonotone(m, Start(state, x, fee), Start(state, y, fee), MAX_ITERATIONS);
  }

  // With fewer than 500 initialised ticks ahead the cap decides nothing: however many more passes were
  // allowed, the swap is the same. Its input is all spent or kept; nothing is left, the liquidity is
  // gone or the limit is reached; and its gas is that of the ticks it has passed.
  lemma SwapRunsToItsEnd(state: PoolState, sorted: seq<int>, x: int, zeroForOne: bool, fee: Option<int>, n: nat)
    requires Legal(state, sorted, fee) && WellPlaced(state, sorted, zeroForOne) && 0 < x
    requires forall t :: t in sorted ==> t in state.ticks
    requires TicksAhead(sorted, FallbackTick(state), zeroForOne) < 500
    requires TicksAhead(sorted, FallbackTick(state), zeroForOne) < n
    ensures var m := Market(state.ticks, sorted, zeroForOne, fee.value);
            var tick := if state.tick.Some? then state.tick.value else 0;
            var s := Progress(state.sqrtPriceX96.value, tick, state.liquidity.value, x, 0, 0, false);
            var r := Reach(PassOf(m), s, n);
            && r.Ok? && var e := r.value;
            && Swap(state, sorted, x, zeroForOne, fee)
               == Ok(SwapResult(e.out, e.price, e.tick, 130_000 + 30_000 * Passed(sorted, tick, zeroForOne, e.price)))
            && Spent(m, s, n) + e.remaining == x && 0 <= e.remaining
            && (e.remaining == 0 || e.liquidity <= 0
                || e.price == if zeroForOne then 4295128739 + 1 else 1461446703485210103287273052203988822378723970342 - 1)
  {
    hide Reach, RatioOf, GetSqrtRatioAtTick, Facing, Passed, Spent, TicksAhead, Iterate;
    var m := Market(state.ticks, sorted, zeroForOne, fee.value);
    var s := Start(state, x, fee);
    RunKeeps(m, s, n);
    RunEnds(m, s, n);
    RunCounts(m, s, n);
    if n <= MAX_ITERATIONS {
      ReachSettles(PassOf(m), s, n, MAX_ITERATIONS - n);
    } else {
      RunEnds(m, s, MAX_ITERATIONS);
      ReachSettles(PassOf(m), s, MAX_ITERATIONS, n - MAX_ITERATIONS);
    }
  }

  // And no swap, on whatever pool, crosses more than 500.
  lemma SwapGasIsCapped(state: PoolState, sorted: seq<int>, x: int, zeroForOne: bool, fee: Option<int>)
    ensures var r := Swap(state, sorted, x, zeroForOne, fee);
            r.Ok? ==> r.value.gasEstimate <= 130_000 + 30_000 * 500
  {
    hide Reach, Iterate;
    if Quotable(state, x, fee) {
      CrossesAtMost(Market(state.ticks, sorted, zeroForOne, fee.value), Start(state, x, fee), MAX_ITERATIONS);
    }
  }

  lemma {:induction false} CrossesAtMost(m: Market, s: Progress, n: nat)
    ensures Reach(PassOf(m), s, n).Ok? ==> Reach(PassOf(m), s, n).value.crossed <= s.crossed + n
    decreases n
  {
    hide Iterate;
    if n > 0 && Running(s) && Iterate(m, s).Ok? {
      CrossesOne(m, s);
      CrossesAtMost(m, Iterate(m, s).value, n - 1);
    }
  }

  lemma CrossesOne(m: Market, s: Progress)
    ensures Iterate(m, s).Ok? ==> Iterate(m, s).value.crossed <= s.crossed + 1
  {
    hide ComputeSwapStep, TickSearch, GetSqrtRatioAtTick;
  }

  // What the program refuses is quoted nothing, at the price and tick of the state.
  lemma SwapRefuses(state: PoolState, sorted: seq<int>, x: int, zeroForOne: bool, fee: Option<int>)
    ensures var usable := 0 < x && state.initialized && state.liquidity.Some? && 0 < state.liquidity.value
                          && state.sqrtPriceX96.Some?
                          && 4295128739 <= state.sqrtPriceX96.value < 1461446703485210103287273052203988822378723970342
                          && fee.Some? && 0 <= fee.value < 1_000_000;
            var price := if state.sqrtPriceX96.Some? then state.sqrtPriceX96.value else 0;
            var tick := if state.tick.Some? then state.tick.value else 0;
            && (usable <==> Quotable(state, x, fee))
            && (!usable ==> Swap(state, sorted, x, zeroForOne, fee) == Ok(SwapResult(0, price, tick, 0)))
  {
    hide Reach;
  }

  // And only on such a pool: it follows the trade for every amount if and only if every initialised
  // tick ahead is on the right side and the limit has not been passed.
  lemma SwapFollowsExactly(state: PoolState, sorted: seq<int>, zeroForOne: bool, fee: Option<int>)
    requires Legal(state, sorted, fee)
    ensures WellPlaced(state, sorted, zeroForOne)
            <==> forall x: int :: x > 0 ==>
                   var r := Swap(state, sorted, x, zeroForOne, fee);
                   r.Ok? && Along(zeroForOne, state.sqrtPriceX96.value, r.value.sqrtPriceX96After)
  {
    hide Swap, Facing;
    if WellPlaced(state, sorted, zeroForOne) {
      forall x: int | x > 0
        ensures var r := Swap(state, sorted, x, zeroForOne, fee);
                r.Ok? && Along(zeroForOne, state.sqrtPriceX96.value, r.value.sqrtPriceX96After)
      {
        SwapIsSound(state, sorted, x, x, zeroForOne, fee);
      }
    } else {
      var x := SomeSwapStrays(state, sorted, zeroForOne, fee);
    }
  }

  lemma SomeSwapStrays(state: PoolState, sorted: seq<int>, zeroForOne: bool, fee: Option<int>) returns (x: int)
    requires Legal(state, sorted, fee) && !WellPlaced(state, sorted, zeroForOne)
    ensures x > 0
    ensures var r := Swap(state, sorted, x, zeroForOne, fee);
            r.Ok? ==> !Along(zeroForOne, state.sqrtPriceX96.value, r.value.sqrtPriceX96After)
  {
    hide Reach, Iterate, Facing;
    var m := Market(state.ticks, sorted, zeroForOne, fee.value);
    x := SomeAmountStrays(m, Start(state, 1, fee));
    var s := Start(state, x, fee);
    assert s == Start(state, 1, fee).(remaining := x);
    StopsAfterOne(PassOf(m), s, MAX_ITERATIONS);
  }

  lemma StopsAfterOne(pass: Progress -> Result<Progress>, s: Progress, n: nat)
    requires n > 0 && Running(s) && (pass(s).Ok? ==> pass(s).value.remaining == 0)
    ensures Reach(pass, s, n) == pass(s)
  {
    hide Reach;
    if pass(s).Ok? {
      ReachStep(pass, s, n);
      ReachStopped(pass, pass(s).value, n - 1);
    } else {
      ReachFails(pass, s, n);
    }
  }

  lemma ReachFails(pass: Progress -> Result<Progress>, s: Progress, n: nat)
    requires n > 0 && Running(s) && pass(s).Err?
    ensures Reach(pass, s, n) == pass(s)
  {
  }
}
