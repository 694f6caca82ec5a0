/** src/math/tick_math.ts: the tick of a price, by binary search with a hint. */
module TickMath {
  import opened IntMath
  import opened Outcomes
  import opened TickRatio

  function RatioOf(tick: int): int {
    if GetSqrtRatioAtTick(tick).Ok? then GetSqrtRatioAtTick(tick).value else 0
  }

  predicate InTickRange(tick: int) {
    MIN_TICK <= tick <= MAX_TICK
  }

  // t is the greatest of all ticks whose price does not exceed `price`.
  ghost predicate GreatestTick(price: int, t: int) {
    && InTickRange(t) && RatioOf(t) <= price
    && forall u :: InTickRange(u) && RatioOf(u) <= price ==> u <= t
  }

  lemma RatioOrder(t: int, u: int)
    requires InTickRange(t) && InTickRange(u)
    ensures GetSqrtRatioAtTick(t) == Ok(RatioOf(t)) && GetSqrtRatioAtTick(u) == Ok(RatioOf(u))
    ensures t <= u <==> RatioOf(t) <= RatioOf(u)
  {
    hide GetSqrtRatioAtTick;
    if t < u {
      RatioIncreases(t, u);
    } else if u < t {
      RatioIncreases(u, t);
    } else if t < MAX_TICK {
      RatioIncreases(t, MAX_TICK);
    } else {
      RatioIncreases(MIN_TICK, t);
    }
  }

  lemma RatioRange(t: int)
    requires InTickRange(t)
    ensures GetSqrtRatioAtTick(t) == Ok(RatioOf(t))
    ensures MIN_SQRT_RATIO <= RatioOf(t) <= MAX_SQRT_RATIO
    ensures RatioOf(t) == MIN_SQRT_RATIO <==> t == MIN_TICK
    ensures RatioOf(t) == MAX_SQRT_RATIO <==> t == MAX_TICK
  {
    hide GetSqrtRatioAtTick;
    EndPoints(MIN_TICK, MAX_TICK);
    RatioOrder(MIN_TICK, t);
    RatioOrder(t, MIN_TICK);
    RatioOrder(t, MAX_TICK);
    RatioOrder(MAX_TICK, t);
  }

  // A tick whose price is reached while the next tick's is not is the greatest one.
  lemma BracketIsGreatest(price: int, t: int)
    requires InTickRange(t) && RatioOf(t) <= price
    requires t == MAX_TICK || price < RatioOf(t + 1)
    ensures GreatestTick(price, t)
  {
    hide GetSqrtRatioAtTick;
    forall u | InTickRange(u) && RatioOf(u) <= price
      ensures u <= t
    {
      if t < u {
        RatioOrder(t + 1, u);
      }
    }
  }

  lemma GreatestTickUnique(price: int, t: int, u: int)
    requires GreatestTick(price, t) && GreatestTick(price, u)
    ensures t == u
  {
  }

  // Every price from the minimum up has a greatest tick.
  lemma {:induction false} GreatestTickExists(price: int, top: int)
    requires MIN_SQRT_RATIO <= price && InTickRange(top)
    requires top == MAX_TICK || price < RatioOf(top + 1)
    ensures exists t :: GreatestTick(price, t)
    decreases top - MIN_TICK
  {
    hide GetSqrtRatioAtTick, RatioOf;
    RatioRange(top);
    if RatioOf(top) <= price {
      BracketIsGreatest(price, top);
    } else {
      GreatestTickExists(price, top - 1);
    }
  }

  ghost function TickAt(price: int): (t: int)
    requires MIN_SQRT_RATIO <= price
    ensures GreatestTick(price, t)
  {
    GreatestTickExists(price, MAX_TICK);
    var t :| GreatestTick(price, t);
    t
  }

  // The outcome of a search with a hint: the tick of the price, whatever the hint, as long as the
  // hint meets the tick range and the price is a legal one.
  ghost function TickSearch(price: int, minTick: int, maxTick: int): Result<int> {
    if price < MIN_SQRT_RATIO || price >= MAX_SQRT_RATIO then Err("TickMath: sqrtPriceX96 out of range")
    else if Max(MIN_TICK, Min(minTick, maxTick)) > Min(MAX_TICK, Max(minTick, maxTick)) then
      Err("TickMath: invalid tick search bounds")
    else Ok(TickAt(price))
  }

  // It throws exactly for a price outside the published range or bounds that miss the ticks altogether,
  // and finds the greatest tick of the price otherwise.
  lemma SearchIsExact(price: int, minTick: int, maxTick: int)
    ensures var r := TickSearch(price, minTick, maxTick);
            && (r.Ok? <==>
                  && 4295128739 <= price < 1461446703485210103287273052203988822378723970342
                  && (minTick <= 887272 || maxTick <= 887272) && (-887272 <= minTick || -887272 <= maxTick))
            && (r.Ok? ==> GreatestTick(price, r.value))
  {
  }

  method GetTickAtSqrtRatioInRange(price: int, minTick: int, maxTick: int) returns (r: Result<int>)
    ensures r == TickSearch(price, minTick, maxTick)
    decreases if minTick == MIN_TICK && maxTick == MAX_TICK then 0 else 2
  {
    hide GetSqrtRatioAtTick, RatioOf;
    if price < MIN_SQRT_RATIO || price >= MAX_SQRT_RATIO {
      return Err("TickMath: sqrtPriceX96 out of range");
    }
    var lo := Max(MIN_TICK, Min(minTick, maxTick));
    var hi := Min(MAX_TICK, Max(minTick, maxTick));
    if lo > hi {
      return Err("TickMath: invalid tick search bounds");
    }
    RatioRange(lo);
    RatioRange(hi);
    if price < GetSqrtRatioAtTick(lo).value || price > GetSqrtRatioAtTick(hi).value {
      r := GetTickAtSqrtRatio(price);
      return;
    }
    ghost var bottom, top := lo, hi;
    while lo <= hi
      invariant bottom <= lo <= hi + 1 && hi <= top
      invariant lo == bottom || RatioOf(lo - 1) <= price
      invariant hi == top || price < RatioOf(hi + 1)
    {
      var mid := (lo + hi) / 2;
      RatioRange(mid);
      if GetSqrtRatioAtTick(mid).value <= price {
        lo := mid + 1;
      } else {
        hi := mid - 1;
      }
    }
    if hi < MAX_TICK {
      RatioOrder(hi + 1, hi);
    }
    BracketIsGreatest(price, hi);
    GreatestTickUnique(price, hi, TickAt(price));
    r := Ok(hi);
  }

  method GetTickAtSqrtRatio(price: int) returns (r: Result<int>)
    ensures r == TickSearch(price, MIN_TICK, MAX_TICK)
    decreases 1
  {
    if price < MIN_SQRT_RATIO || price >= MAX_SQRT_RATIO {
      return Err("TickMath: sqrtPriceX96 out of range");
    }
    r := GetTickAtSqrtRatioInRange(price, MIN_TICK, MAX_TICK);
  }
}
