/** src/math/uniswap_v3.ts: the liquidity of a pool across its ticks, and what whole sequences of swaps cost. */
module TickLedger {
  import opened IntMath
  import opened SqrtPriceMath
  import opened SwapMath
  import opened TickRatio
  import opened TickMath
  import opened UniswapV3
  import opened SwapAcrossTicks
  import opened Outcomes

  // --- Active liquidity ---

  function Net(ticks: map<int, int>, t: int): int {
    if t in ticks then ticks[t] else 0
  }

  // What the initialised ticks at or below a tick add up to.
  function NetUpTo(ticks: map<int, int>, sorted: seq<int>, tick: int): int {
    if sorted == [] then 0
    else
      var rest, t := sorted[..|sorted| - 1], sorted[|sorted| - 1];
      NetUpTo(ticks, rest, tick) + (if t <= tick then Net(ticks, t) else 0)
  }

  lemma {:induction false} SameRange(ticks: map<int, int>, sorted: seq<int>, a: int, b: int)
    requires forall t :: t in sorted ==> (t <= a <==> t <= b)
    ensures NetUpTo(ticks, sorted, a) == NetUpTo(ticks, sorted, b)
  {
    if sorted != [] {
      var rest, t := sorted[..|sorted| - 1], sorted[|sorted| - 1];
      assert sorted == rest + [t] && t in sorted;
      assert forall u :: u in rest ==> u in sorted;
      SameRange(ticks, rest, a, b);
    }
  }

  lemma {:induction false} NetOfOne(ticks: map<int, int>, sorted: seq<int>, n: int)
    requires Sorted(sorted) && n in sorted
    ensures NetUpTo(ticks, sorted, n) == NetUpTo(ticks, sorted, n - 1) + Net(ticks, n)
  {
    var rest, t := sorted[..|sorted| - 1], sorted[|sorted| - 1];
    if t == n {
      assert forall u :: u in rest ==> u < n;
      SameRange(ticks, rest, n, n - 1);
    } else {
      assert sorted == rest + [t];
      NetOfOne(ticks, rest, n);
    }
  }

  // What the active liquidity has beyond that: of positions reaching past the ticks that are known.
  function Surplus(m: Market, s: Progress): int {
    s.liquidity - NetUpTo(m.ticks, m.sorted, s.tick)
  }

  // Every initialised tick is on its side of the price.
  ghost predicate Astride(m: Market, s: Progress) {
    Facing(m.sorted, s.price, s.tick, true) && Facing(m.sorted, s.price, s.tick, false)
  }

  ghost predicate Standing(base: int, m: Market, s: Progress) {
    Astride(m, s) && Surplus(m, s) == base
  }

  // The one way to stop with another surplus: on a tick already crossed downwards, with too little left
  // to move the price. The search names that tick, while the liquidity is that below it.
  ghost predicate OnEdge(base: int, m: Market, s: Progress) {
    && m.zeroForOne && s.stopped && s.tick in m.sorted && s.price == RatioOf(s.tick)
    && s.liquidity == base + NetUpTo(m.ticks, m.sorted, s.tick - 1)
  }

  lemma CrossKeepsLiquidity(m: Market, s: Progress, moved: Progress, n: int)
    requires Ordered(m) && NextTick(m.sorted, s.tick, m.zeroForOne) == Some(n) && s.liquidity == moved.liquidity
    ensures Surplus(m, Cross(m, moved, n)) == Surplus(m, s)
  {
    NetOfOne(m.ticks, m.sorted, n);
    if m.zeroForOne {
      SameRange(m.ticks, m.sorted, s.tick, n);
    } else {
      SameRange(m.ticks, m.sorted, s.tick, n - 1);
    }
  }

  lemma SettleKeepsLiquidity(m: Market, s: Progress, moved: Progress, next: Option<int>)
    requires Ordered(m) && Astride(m, s) && next == NextTick(m.sorted, s.tick, m.zeroForOne)
    requires MIN_SQRT_RATIO <= moved.price && Along(m.zeroForOne, s.price, moved.price) && moved.liquidity == s.liquidity
    requires next.Some? ==> moved.price != RatioOf(next.value) && Along(m.zeroForOne, moved.price, RatioOf(next.value))
    ensures var r := moved.(tick := TickAt(moved.price), stopped := true);
            Surplus(m, r) == Surplus(m, s) || (OnEdge(Surplus(m, s), m, r) && s.tick < r.tick && r.price == s.price)
  {
    hide GetSqrtRatioAtTick, RatioOf;
    var t := TickAt(moved.price);
    forall u | u in m.sorted
      ensures u <= t <==> RatioOf(u) <= moved.price
      ensures u <= s.tick ==> u <= t
      ensures s.tick < u <= t ==> u == t && RatioOf(t) == moved.price && m.zeroForOne
    {
      RatioOrder(u, t);
      RatioOrder(t, u);
      if next.Some? {
        RatioOrder(u, next.value);
        RatioOrder(next.value, u);
      }
    }
    if t in m.sorted && s.tick < t {
      SameRange(m.ticks, m.sorted, s.tick, t - 1);
    } else {
      SameRange(m.ticks, m.sorted, s.tick, t);
    }
  }

  // A pass keeps the surplus, or stops on such an edge.
  lemma PassKeepsLiquidity(m: Market, s: Progress)
    requires Ordered(m) && Placed(m, s) && Astride(m, s) && s.liquidity > 0 && Running(s)
    ensures var base, r := Surplus(m, s), Iterate(m, s);
            && r.Ok?
            && (Standing(base, m, r.value)
                || (OnEdge(base, m, r.value) && s.tick < r.value.tick && r.value.price == s.price))
            && (!r.value.stopped ==> Standing(base, m, r.value))
  {
    hide ComputeSwapStep, RatioOf, GetSqrtRatioAtTick, Facing;
    TargetIsAhead(m, s);
    StepOfPass(m, s);
    PassKeeps(m, s);
    var next := NextTick(m.sorted, s.tick, m.zeroForOne);
    var nextPrice := NextPrice(m, next).value;
    var step := ComputeSwapStep(s.price, Target(m, s), s.liquidity, s.remaining, m.feePips).value;
    var moved := s.(price := step.sqrtRatioNext,
                    remaining := s.remaining - (step.amountIn + step.feeAmount),
                    out := s.out + step.amountOut);
    if step.sqrtRatioNext == nextPrice && next.Some? {
      CrossKeepsLiquidity(m, s, moved, next.value);
    } else {
      SettleKeepsLiquidity(m, s, moved, next);
    }
  }

  // Over any run, from any liquidity, it never changes, up to that edge.
  lemma {:induction false} RunKeepsLiquidity(m: Market, s: Progress, n: nat)
    requires Ordered(m) && Placed(m, s) && Astride(m, s) && !s.stopped && s.liquidity > 0
    ensures var base, r := Surplus(m, s), Reach(PassOf(m), s, n);
            && r.Ok? && (Standing(base, m, r.value) || OnEdge(base, m, r.value))
            && (!r.value.stopped ==> Standing(base, m, r.value))
    decreases n
  {
    hide Iterate, Reach, Placed, Ordered, OnEdge, NetUpTo, TicksAhead, Along, Limit, Facing;
    if n == 0 || !Running(s) {
      ReachStopped(PassOf(m), s, n);
    } else {
      PassKeeps(m, s);
      PassKeepsLiquidity(m, s);
      ReachStep(PassOf(m), s, n);
      var e := Iterate(m, s).value;
      if e.stopped {
        ReachStopped(PassOf(m), e, n - 1);
      } else {
        RunKeepsLiquidity(m, e, n - 1);
      }
    }
  }

  // What is left does not pay for one unit of price, or the price is at the limit.
  ghost predicate Stuck(m: Market, s: Progress) {
    Target(m, s) == s.price || !Pays(true, s.price, s.price - 1, s.liquidity, LessFee(s.remaining, m.feePips))
  }

  lemma StuckStays(m: Market, s: Progress)
    requires Ordered(m) && Placed(m, s) && s.liquidity > 0 && m.zeroForOne
    ensures var r := ComputeSwapStep(s.price, Target(m, s), s.liquidity, s.remaining, m.feePips);
            && r.Ok? && (Stuck(m, s) <==> r.value.sqrtRatioNext == s.price)
            && (Stuck(m, s) ==> r.value.amountOut == 0)
            && (Stuck(m, s) && Target(m, s) != s.price ==> r.value.amountIn + r.value.feeAmount == s.remaining)
  {
    hide ComputeSwapStep, LessFee, Pays, Releases, Target, RatioOf, Facing;
    TargetTells(m, s);
    var target := Target(m, s);
    ExactInPrice(s.price, target, s.liquidity, s.remaining, m.feePips, s.price);
    if target < s.price {
      ExactInPrice(s.price, target, s.liquidity, s.remaining, m.feePips, s.price - 1);
    }
    ExactInAmounts(s.price, target, s.liquidity, s.remaining, m.feePips, 0);
    var out := ComputeSwapStep(s.price, target, s.liquidity, s.remaining, m.feePips).value.amountOut;
    ExactInAmounts(s.price, target, s.liquidity, s.remaining, m.feePips, out);
    if Stuck(m, s) {
      StayingPaysNothing(true, s.price, s.liquidity, out);
    }
  }

  // A downward trade stuck on an initialised tick above its own: the tick moves up although the price
  // does not, and the liquidity stays that below it.
  lemma DustResetsTick(m: Market, s: Progress, t: int)
    requires Ordered(m) && Placed(m, s) && Astride(m, s) && s.liquidity > 0 && Running(s) && m.zeroForOne
    requires t in m.sorted && s.tick < t && s.price == RatioOf(t) && Stuck(m, s)
    ensures Iterate(m, s).Ok?
    ensures var r := Iterate(m, s).value;
            && r == s.(tick := t, stopped := true, remaining := r.remaining)
            && (Target(m, s) != s.price ==> r.remaining == 0)
            && OnEdge(Surplus(m, s), m, r) && Surplus(m, r) == Surplus(m, s) - Net(m.ticks, t)
  {
    hide ComputeSwapStep, RatioOf, GetSqrtRatioAtTick, LessFee, Pays;
    TargetIsAhead(m, s);
    StuckStays(m, s);
    var next := NextTick(m.sorted, s.tick, true);
    if next.Some? {
      RatioOrder(t, next.value);
    }
    TickOfItsRatio(t);
    forall u | u in m.sorted
      ensures u <= s.tick <==> u <= t - 1
    {
      RatioOrder(t, u);
    }
    SameRange(m.ticks, m.sorted, s.tick, t - 1);
    NetOfOne(m.ticks, m.sorted, t);
  }

  // And that is the only way: a pass loses track of the liquidity exactly when it is such a trade, and
  // the tick has a net to lose.
  lemma PassLosesTickExactly(m: Market, s: Progress)
    requires Ordered(m) && Placed(m, s) && Astride(m, s) && s.liquidity > 0 && Running(s)
    ensures Iterate(m, s).Ok?
    ensures !Standing(Surplus(m, s), m, Iterate(m, s).value)
            <==> && m.zeroForOne && Stuck(m, s)
                 && exists t :: t in m.sorted && s.tick < t && s.price == RatioOf(t) && Net(m.ticks, t) != 0
  {
    hide Iterate, RatioOf, Stuck, Net, NetUpTo, TicksAhead;
    PassKeeps(m, s);
    PassKeepsLiquidity(m, s);
    if m.zeroForOne && Stuck(m, s) {
      forall t | t in m.sorted && s.tick < t && s.price == RatioOf(t)
        ensures Surplus(m, Iterate(m, s).value) == Surplus(m, s) - Net(m.ticks, t)
      {
        DustResetsTick(m, s, t);
      }
    }
    var r := Iterate(m, s).value;
    if !Standing(Surplus(m, s), m, r) {
      NetOfOne(m.ticks, m.sorted, r.tick);
      var step := PassStep(m, s);
      StuckStays(m, s);
    }
  }

  // A pool on tick zero, whose liquidity above it is three times 10^30 and below it two: one unit sold
  // without a fee crosses the tick, moves nothing, and ends back on it with the liquidity below.
  function Resting(): PoolState {
    PoolState(true, Some(Q96), Some(3 * E30), None, Some(0), map[0 := E30])
  }

  const E30: int := 1_000_000_000_000_000_000_000_000_000_000

  lemma TickIsMisreported()
    ensures var m := Market(Resting().ticks, [0], true, 0);
            Reach(PassOf(m), Start(Resting(), 1, Some(0)), MAX_ITERATIONS) == Ok(Progress(Q96, 0, 2 * E30, 0, 0, 1, true))
    ensures Swap(Resting(), [0], 1, true, Some(0)) == Ok(SwapResult(0, Q96, 0, 160_000))
  {
    hide Iterate, RatioOf, Reach;
    var m := Market(Resting().ticks, [0], true, 0);
    var s := Start(Resting(), 1, Some(0));
    TickZero();
    FirstPassCrosses(m, s);
    var e := s.(tick := -1, liquidity := 2 * E30, crossed := 1);
    SecondPassStays(m, e);
    var r := e.(tick := 0, remaining := 0, stopped := true);
    ReachStep(PassOf(m), s, MAX_ITERATIONS);
    ReachStep(PassOf(m), e, MAX_ITERATIONS - 1);
    ReachStopped(PassOf(m), r, MAX_ITERATIONS - 2);
  }

  lemma TickZero()
    ensures GetSqrtRatioAtTick(0) == Ok(Q96) && RatioOf(0) == Q96
  {
    NoBits(0);
  }

  lemma FirstPassCrosses(m: Market, s: Progress)
    requires m == Market(Resting().ticks, [0], true, 0) && s == Start(Resting(), 1, Some(0))
    ensures Iterate(m, s) == Ok(s.(tick := -1, liquidity := 2 * E30, crossed := 1))
  {
    hide GetSqrtRatioAtTick, RatioOf, ComputeSwapStep;
    TickZero();
    StandingStill(Q96, 3 * E30, 1, 0);
  }

  lemma SecondPassStays(m: Market, e: Progress)
    requires m == Market(Resting().ticks, [0], true, 0) && e == Progress(Q96, -1, 2 * E30, 1, 0, 1, false)
    ensures Iterate(m, e) == Ok(e.(tick := 0, remaining := 0, stopped := true))
  {
    hide Iterate, GetSqrtRatioAtTick, RatioOf;
    TickZero();
    assert Target(m, e) == Limit(true);
    DustResetsTick(m, e, 0);
  }

  // A step whose target is the price charges and pays nothing.
  lemma StandingStill(price: int, liquidity: int, amount: int, feePips: int)
    requires Priced(price, price, liquidity, feePips) && 0 <= amount
    ensures ComputeSwapStep(price, price, liquidity, amount, feePips) == Ok(SwapStep(price, 0, 0, 0))
  {
    hide ComputeSwapStep;
    ExactInPrice(price, price, liquidity, amount, feePips, price);
    ExactInAmounts(price, price, liquidity, amount, feePips, 0);
    var out := ComputeSwapStep(price, price, liquidity, amount, feePips).value.amountOut;
    ExactInAmounts(price, price, liquidity, amount, feePips, out);
    StayingPaysNothing(true, price, liquidity, out);
  }

  lemma TickOfItsRatio(n: int)
    requires InTickRange(n)
    ensures MIN_SQRT_RATIO <= RatioOf(n) && TickAt(RatioOf(n)) == n
  {
    hide GetSqrtRatioAtTick, RatioOf;
    RatioRange(n);
    RatioOrder(n, TickAt(RatioOf(n)));
    RatioOrder(TickAt(RatioOf(n)), n);
  }

  // --- Heights ---

  // The price axis of each token: a unit of liquidity moved from q up to p gives Phi(p) - Phi(q) of it
  // (token1 is taken in on the way up, token0 paid out).
  ghost function Phi(token1: bool, p: int): real {
    if p <= 0 then 0.0 else if token1 then p as real / Q96 as real else -(Q96 as real / p as real)
  }

  lemma PhiRises(token1: bool, q: int, p: int)
    requires 0 < q < p
    ensures Phi(token1, q) < Phi(token1, p)
  {
  }

  // How far a price lies above an initialised tick on that axis, and the sum of it over all of them,
  // each weighted with its net, with the surplus as if it had always been there: what the liquidity
  // below the price holds of the token.
  ghost function Above(token1: bool, r: int, p: int): real {
    if r < p then Phi(token1, p) - Phi(token1, r) else 0.0
  }

  ghost function Height(base: int, ticks: map<int, int>, sorted: seq<int>, token1: bool, p: int): real {
    if sorted == [] then base as real * Phi(token1, p)
    else
      var rest, t := sorted[..|sorted| - 1], sorted[|sorted| - 1];
      Height(base, ticks, rest, token1, p) + Net(ticks, t) as real * Above(token1, RatioOf(t), p)
  }

  // Between two prices without an initialised tick in between it rises with the active liquidity.
  lemma {:induction false} HeightIsLinear(base: int, ticks: map<int, int>, sorted: seq<int>, token1: bool, q: int, p: int, tick: int)
    requires 0 < q <= p
    requires forall t :: t in sorted && t <= tick ==> RatioOf(t) <= q
    requires forall t :: t in sorted && tick < t ==> p <= RatioOf(t)
    ensures Height(base, ticks, sorted, token1, p) - Height(base, ticks, sorted, token1, q)
            == (base + NetUpTo(ticks, sorted, tick)) as real * (Phi(token1, p) - Phi(token1, q))
  {
    hide RatioOf, Phi, Net, Height, NetUpTo, Above;
    if sorted == [] {
      NoHeight(base, ticks, token1, p, tick);
      NoHeight(base, ticks, token1, q, tick);
      assert base as real * Phi(token1, p) - base as real * Phi(token1, q) == base as real * (Phi(token1, p) - Phi(token1, q));
    } else {
      var rest, t := sorted[..|sorted| - 1], sorted[|sorted| - 1];
      assert sorted == rest + [t] && t in sorted;
      assert forall u :: u in rest ==> u in sorted;
      HeightIsLinear(base, ticks, rest, token1, q, p, tick);
      Unfold(base, ticks, sorted, token1, p, tick);
      Unfold(base, ticks, sorted, token1, q, tick);
      AboveSegment(token1, RatioOf(t), q, p);
      OneMoreTick(Height(base, ticks, rest, token1, p), Height(base, ticks, rest, token1, q), (base + NetUpTo(ticks, rest, tick)) as real,
                  Net(ticks, t) as real, Above(token1, RatioOf(t), p), Above(token1, RatioOf(t), q), t <= tick,
                  Phi(token1, p) - Phi(token1, q), (base + NetUpTo(ticks, sorted, tick)) as real);
    }
  }

  lemma NoHeight(base: int, ticks: map<int, int>, token1: bool, p: int, tick: int)
    ensures Height(base, ticks, [], token1, p) == base as real * Phi(token1, p) && NetUpTo(ticks, [], tick) == 0
  {
  }

  lemma Unfold(base: int, ticks: map<int, int>, sorted: seq<int>, token1: bool, p: int, tick: int)
    requires sorted != []
    ensures var rest, t := sorted[..|sorted| - 1], sorted[|sorted| - 1];
            && Height(base, ticks, sorted, token1, p)
               == Height(base, ticks, rest, token1, p) + Net(ticks, t) as real * Above(token1, RatioOf(t), p)
            && NetUpTo(ticks, sorted, tick) as real
               == NetUpTo(ticks, rest, tick) as real + (if t <= tick then Net(ticks, t) as real else 0.0)
  {
    hide RatioOf, Phi, Net, Above;
  }

  lemma AboveSegment(token1: bool, r: int, q: int, p: int)
    requires 0 < q <= p
    ensures r <= q ==> Above(token1, r, p) - Above(token1, r, q) == Phi(token1, p) - Phi(token1, q)
    ensures p <= r ==> Above(token1, r, p) - Above(token1, r, q) == 0.0
  {
    hide Phi;
  }

  lemma OneMoreTick(hp: real, hq: real, below: real, net: real, a: real, b: real, counts: bool, step: real, total: real)
    requires hp - hq == below * step && a - b == if counts then step else 0.0
    requires total == below + if counts then net else 0.0
    ensures (hp + net * a) - (hq + net * b) == total * step
  {
    assert net * a - net * b == net * (a - b);
  }

  // --- What a step costs, in heights ---

  // What moving the price between lo and hi is worth of one token.
  ghost function Worth(liquidity: int, token1: bool, lo: int, hi: int): real {
    liquidity as real * (Phi(token1, hi) - Phi(token1, lo))
  }

  lemma PhiTimes(token1: bool, lo: int, hi: int)
    requires 0 < lo && 0 < hi
    ensures if token1 then (Phi(true, hi) - Phi(true, lo)) * Q96 as real == (hi - lo) as real
            else (Phi(false, hi) - Phi(false, lo)) * (lo as real * hi as real) == Q96 as real * (hi - lo) as real
  {
    if !token1 {
      var x, y := Q96 as real / lo as real, Q96 as real / hi as real;
      assert x * lo as real == Q96 as real && y * hi as real == Q96 as real;
      CrossTimes(x, y, lo as real, hi as real);
    }
  }

  lemma CrossTimes(x: real, y: real, lo: real, hi: real)
    ensures (x - y) * (lo * hi) == (x * lo) * hi - (y * hi) * lo
  {
  }

  // The worth times its denominator is the whole-number price of the move.
  lemma WorthTimes(liquidity: int, token1: bool, lo: int, hi: int)
    requires 0 < lo && 0 < hi
    ensures if token1 then Worth(liquidity, true, lo, hi) * Q96 as real == (liquidity * (hi - lo)) as real
            else Worth(liquidity, false, lo, hi) * (lo * hi) as real == (liquidity * Q96 * (hi - lo)) as real
  {
    hide Phi;
    PhiTimes(token1, lo, hi);
    Triple(liquidity as real, Phi(token1, hi) - Phi(token1, lo), if token1 then Q96 as real else lo as real * hi as real);
    if !token1 {
      ProductAsReal(lo, hi);
      ProductAsReal(liquidity * Q96, hi - lo);
      Triple(liquidity as real, Q96 as real, (hi - lo) as real);
    } else {
      ProductAsReal(liquidity, hi - lo);
    }
  }

  lemma ProductAsReal(a: int, b: int)
    ensures (a * b) as real == a as real * b as real
  {
  }

  lemma Triple(a: real, b: real, c: real)
    ensures a * b * c == a * (b * c)
  {
  }

  lemma CompareScaled(worth: real, d: int, n: int, a: int)
    requires 0 < d && worth * d as real == n as real
    ensures n <= a * d <==> worth <= a as real
    ensures a * d <= n <==> a as real <= worth
  {
    ProductAsReal(a, d);
    ScaledOrder(worth, a as real, d as real);
    ScaledOrder(a as real, worth, d as real);
  }

  lemma ScaledOrder(x: real, y: real, d: real)
    requires 0.0 < d
    ensures x <= y <==> x * d <= y * d
  {
  }

  // Token1 is what comes in on the way up, token0 on the way down.
  lemma PaysWorth(zeroForOne: bool, current: int, p: int, liquidity: int, a: int)
    requires 0 < current && 0 < p && Pays(zeroForOne, current, p, liquidity, a)
    ensures if zeroForOne then Worth(liquidity, false, p, current) <= a as real
            else Worth(liquidity, true, current, p) <= a as real
  {
    hide Worth;
    if zeroForOne {
      WorthTimes(liquidity, false, p, current);
      MulStrict(0, p, current);
      CompareScaled(Worth(liquidity, false, p, current), p * current, liquidity * Q96 * (current - p), a);
    } else {
      WorthTimes(liquidity, true, current, p);
      CompareScaled(Worth(liquidity, true, current, p), Q96, liquidity * (p - current), a);
    }
  }

  lemma ReleasesWorth(zeroForOne: bool, current: int, p: int, liquidity: int, y: int)
    requires 0 < current && 0 < p && Releases(zeroForOne, current, p, liquidity, y)
    ensures if zeroForOne then y as real <= Worth(liquidity, true, p, current)
            else y as real <= Worth(liquidity, false, current, p)
  {
    hide Worth;
    if zeroForOne {
      WorthTimes(liquidity, true, p, current);
      CompareScaled(Worth(liquidity, true, p, current), Q96, liquidity * (current - p), y);
    } else {
      WorthTimes(liquidity, false, current, p);
      MulStrict(0, current, p);
      CompareScaled(Worth(liquidity, false, current, p), current * p, liquidity * Q96 * (p - current), y);
    }
  }

  // --- Passes and runs ---

  // Moving the price from one place to another charged at least, and paid at most, what lies between.
  ghost predicate Fair(base: int, m: Market, from: int, to: int, charged: int, paid: int) {
    if m.zeroForOne then
      && Height(base, m.ticks, m.sorted, false, from) - Height(base, m.ticks, m.sorted, false, to) <= charged as real
      && paid as real <= Height(base, m.ticks, m.sorted, true, from) - Height(base, m.ticks, m.sorted, true, to)
    else
      && Height(base, m.ticks, m.sorted, true, to) - Height(base, m.ticks, m.sorted, true, from) <= charged as real
      && paid as real <= Height(base, m.ticks, m.sorted, false, to) - Height(base, m.ticks, m.sorted, false, from)
  }

  // Both heights rise strictly all the way from lo to hi: there is liquidity everywhere in between.
  ghost predicate Rising(base: int, ticks: map<int, int>, sorted: seq<int>, lo: int, hi: int) {
    forall token1, p, q :: lo <= p < q <= hi ==> Height(base, ticks, sorted, token1, p) < Height(base, ticks, sorted, token1, q)
  }

  lemma RisingJoins(base: int, ticks: map<int, int>, sorted: seq<int>, a: int, b: int, c: int)
    requires a <= b <= c && Rising(base, ticks, sorted, a, b) && Rising(base, ticks, sorted, b, c)
    ensures Rising(base, ticks, sorted, a, c)
  {
    hide Height;
    forall token1, p, q | a <= p < q <= c
      ensures Height(base, ticks, sorted, token1, p) < Height(base, ticks, sorted, token1, q)
    {
      if p < b < q {
        assert Height(base, ticks, sorted, token1, p) < Height(base, ticks, sorted, token1, b);
      }
    }
  }

  lemma SegmentRises(base: int, ticks: map<int, int>, sorted: seq<int>, lo: int, hi: int, tick: int)
    requires 0 < lo && 0 < base + NetUpTo(ticks, sorted, tick)
    requires forall t :: t in sorted && t <= tick ==> RatioOf(t) <= lo
    requires forall t :: t in sorted && tick < t ==> hi <= RatioOf(t)
    ensures Rising(base, ticks, sorted, lo, hi)
  {
    hide Height, NetUpTo, Phi, RatioOf;
    forall token1, p, q | lo <= p < q <= hi
      ensures Height(base, ticks, sorted, token1, p) < Height(base, ticks, sorted, token1, q)
    {
      HeightIsLinear(base, ticks, sorted, token1, p, q, tick);
      PhiRises(token1, p, q);
      PositiveProduct((base + NetUpTo(ticks, sorted, tick)) as real, Phi(token1, q) - Phi(token1, p));
    }
  }

  lemma PositiveProduct(a: real, b: real)
    requires 0.0 < a && 0.0 < b
    ensures 0.0 < a * b
  {
  }

  // The step of a pass in the terms of its market.
  lemma PassStep(m: Market, s: Progress) returns (step: SwapStep)
    requires Ordered(m) && Placed(m, s) && s.liquidity > 0
    ensures ComputeSwapStep(s.price, Target(m, s), s.liquidity, s.remaining, m.feePips) == Ok(step)
    ensures Along(m.zeroForOne, s.price, Target(m, s)) && Along(m.zeroForOne, s.price, step.sqrtRatioNext)
    ensures Along(m.zeroForOne, step.sqrtRatioNext, Target(m, s)) && 0 < step.sqrtRatioNext
    ensures Iterate(m, s).Ok? ==>
              var r := Iterate(m, s).value;
              && r.price == step.sqrtRatioNext && r.out == s.out + step.amountOut
              && r.remaining == s.remaining - (step.amountIn + step.feeAmount)
    ensures 0 <= step.amountIn && 0 <= step.feeAmount && 0 <= step.amountOut
    ensures Pays(s.price >= Target(m, s), s.price, step.sqrtRatioNext, s.liquidity, step.amountIn)
    ensures Releases(s.price >= Target(m, s), s.price, step.sqrtRatioNext, s.liquidity, step.amountOut)
  {
    hide ComputeSwapStep, RatioOf, GetSqrtRatioAtTick, Facing, Pays, Releases, TickSearch;
    TargetIsAhead(m, s);
    StepOfPass(m, s);
    var target := Target(m, s);
    TargetTells(m, s);
    step := ComputeSwapStep(s.price, target, s.liquidity, s.remaining, m.feePips).value;
    ExactInAmounts(s.price, target, s.liquidity, s.remaining, m.feePips, step.amountIn);
    ExactInAmounts(s.price, target, s.liquidity, s.remaining, m.feePips, step.amountOut);
  }

  // Between the price and the target no initialised tick is passed.
  lemma TargetIsNear(m: Market, s: Progress, p: int)
    requires Ordered(m) && Placed(m, s) && Astride(m, s)
    requires Along(m.zeroForOne, s.price, p) && Along(m.zeroForOne, p, Target(m, s))
    ensures forall t :: t in m.sorted && t <= s.tick ==> RatioOf(t) <= Min(s.price, p)
    ensures forall t :: t in m.sorted && s.tick < t ==> Max(s.price, p) <= RatioOf(t)
  {
    hide RatioOf, GetSqrtRatioAtTick;
    var next := NextTick(m.sorted, s.tick, m.zeroForOne);
    forall t | t in m.sorted && next.Some?
      ensures t <= next.value ==> RatioOf(t) <= RatioOf(next.value)
      ensures next.value <= t ==> RatioOf(next.value) <= RatioOf(t)
    {
      RatioOrder(t, next.value);
      RatioOrder(next.value, t);
    }
  }

  lemma PassIsFair(m: Market, s: Progress)
    requires Ordered(m) && Placed(m, s) && Astride(m, s) && s.liquidity > 0 && Running(s)
    ensures var base, r := Surplus(m, s), Iterate(m, s);
            && r.Ok? && Fair(base, m, s.price, r.value.price, s.remaining - r.value.remaining, r.value.out - s.out)
            && Rising(base, m.ticks, m.sorted, Min(s.price, r.value.price), Max(s.price, r.value.price))
  {
    hide Iterate, RatioOf, Facing, Height, Pays, Releases, ComputeSwapStep, Target, TicksAhead, Rising, Phi, NetUpTo;
    var base := Surplus(m, s);
    PassKeeps(m, s);
    var step := PassStep(m, s);
    var p := step.sqrtRatioNext;
    TargetIsNear(m, s, p);
    SegmentRises(base, m.ticks, m.sorted, Min(s.price, p), Max(s.price, p), s.tick);
    HeightIsLinear(base, m.ticks, m.sorted, true, Min(s.price, p), Max(s.price, p), s.tick);
    HeightIsLinear(base, m.ticks, m.sorted, false, Min(s.price, p), Max(s.price, p), s.tick);
    if p != s.price {
      PaysWorth(m.zeroForOne, s.price, p, s.liquidity, step.amountIn);
      ReleasesWorth(m.zeroForOne, s.price, p, s.liquidity, step.amountOut);
    } else {
      StayingPaysNothing(s.price >= Target(m, s), p, s.liquidity, step.amountOut);
    }
  }

  lemma StayingPaysNothing(zeroForOne: bool, p: int, liquidity: int, y: int)
    requires 0 < p && Releases(zeroForOne, p, p, liquidity, y)
    ensures y <= 0
  {
    MulStrict(0, p, p);
    if 0 < y {
      MulStrict(0, y, p * p);
    }
  }

  lemma FairJoins(base: int, m: Market, a: int, b: int, c: int, charged1: int, paid1: int, charged2: int, paid2: int)
    requires Fair(base, m, a, b, charged1, paid1) && Fair(base, m, b, c, charged2, paid2)
    ensures Fair(base, m, a, c, charged1 + charged2, paid1 + paid2)
  {
    hide Height;
  }

  // Every run charges at least and pays at most what lies between its ends, over any number of ticks.
  lemma {:induction false} RunIsFair(m: Market, s: Progress, n: nat)
    requires Ordered(m) && Placed(m, s) && Astride(m, s) && !s.stopped && s.liquidity > 0
    ensures var base, r := Surplus(m, s), Reach(PassOf(m), s, n);
            && r.Ok? && Fair(base, m, s.price, r.value.price, s.remaining - r.value.remaining, r.value.out - s.out)
            && Rising(base, m.ticks, m.sorted, Min(s.price, r.value.price), Max(s.price, r.value.price))
            && Along(m.zeroForOne, s.price, r.value.price)
    decreases n
  {
    hide Iterate, Reach, Placed, Ordered, OnEdge, NetUpTo, TicksAhead, Limit, Facing, Height;
    if n == 0 || !Running(s) {
      ReachStopped(PassOf(m), s, n);
    } else {
      hide Fair, Rising;
      var base := Surplus(m, s);
      PassKeeps(m, s);
      PassKeepsLiquidity(m, s);
      PassIsFair(m, s);
      ReachStep(PassOf(m), s, n);
      var e := Iterate(m, s).value;
      if e.stopped {
        ReachStopped(PassOf(m), e, n - 1);
      } else {
        RunIsFair(m, e, n - 1);
        var r := Reach(PassOf(m), e, n - 1).value;
        FairJoins(base, m, s.price, e.price, r.price, s.remaining - e.remaining, e.out - s.out, e.remaining - r.remaining, r.out - e.out);
        RisingJoins(base, m.ticks, m.sorted, Min(s.price, r.price), e.price, Max(s.price, r.price));
      }
    }
  }

  // --- Sequences of swaps ---

  // The initialised ticks of a pool that are known, and the liquidity it has beyond their nets; a swap
  // to make; and where the pool is, with what it has received of each token, net of what it paid out,
  // fees included.
  datatype Book = Book(base: int, ticks: map<int, int>, sorted: seq<int>)
  datatype Leg = Leg(zeroForOne: bool, amount: int, fee: Option<int>)
  datatype Account = Account(price: int, tick: int, net0: int, net1: int)

  // The pool state at a price and tick, with the liquidity it has there.
  function StateAt(b: Book, price: int, tick: int): PoolState {
    PoolState(true, Some(price), Some(b.base + NetUpTo(b.ticks, b.sorted, tick)), None, Some(tick), b.ticks)
  }

  // One simulated swap; one the program does not go on with changes nothing.
  ghost function Deal(b: Book, a: Account, leg: Leg): Result<Account> {
    var state := StateAt(b, a.price, a.tick);
    if !Quotable(state, leg.amount, leg.fee) then Ok(a)
    else
      var m := Market(b.ticks, b.sorted, leg.zeroForOne, leg.fee.value);
      var end :- Reach(PassOf(m), Start(state, leg.amount, leg.fee), MAX_ITERATIONS);
      var spent := leg.amount - end.remaining;
      Ok(if leg.zeroForOne then Account(end.price, end.tick, a.net0 + spent, a.net1 - end.out)
         else Account(end.price, end.tick, a.net0 - end.out, a.net1 + spent))
  }

  ghost function Session(b: Book, a: Account, legs: seq<Leg>): Result<Account>
    decreases |legs|
  {
    if legs == [] then Ok(a)
    else
      var next :- Deal(b, a, legs[0]);
      Session(b, next, legs[1..])
  }

  // Legal ticks on their sides of a price that may move either way.
  ghost predicate Open(b: Book, price: int, tick: int) {
    && Sorted(b.sorted) && (forall t :: t in b.sorted ==> InTickRange(t))
    && Limit(true) <= price <= Limit(false)
    && Facing(b.sorted, price, tick, true) && Facing(b.sorted, price, tick, false)
  }

  // What came in covers the whole way from the first price, in both tokens.
  ghost predicate Covered(b: Book, start: int, a: Account) {
    && Height(b.base, b.ticks, b.sorted, false, start) - Height(b.base, b.ticks, b.sorted, false, a.price) <= a.net0 as real
    && Height(b.base, b.ticks, b.sorted, true, a.price) - Height(b.base, b.ticks, b.sorted, true, start) <= a.net1 as real
    && Rising(b.base, b.ticks, b.sorted, Min(start, a.price), Max(start, a.price))
  }

  lemma WayExtends(base: int, ticks: map<int, int>, sorted: seq<int>, start: int, a: int, c: int)
    requires Rising(base, ticks, sorted, Min(start, a), Max(start, a)) && Rising(base, ticks, sorted, Min(a, c), Max(a, c))
    ensures Rising(base, ticks, sorted, Min(start, c), Max(start, c))
  {
    hide Height;
    if start <= a <= c {
      RisingJoins(base, ticks, sorted, start, a, c);
    } else if c <= a <= start {
      RisingJoins(base, ticks, sorted, c, a, start);
    }
  }

  lemma DealKeepsCovered(b: Book, start: int, a: Account, leg: Leg)
    requires Open(b, a.price, a.tick) && Covered(b, start, a)
    ensures var r := Deal(b, a, leg);
            r.Ok? && Open(b, r.value.price, r.value.tick) && Covered(b, start, r.value)
  {
    hide Reach, RatioOf, Facing, Height, Rising, NetUpTo, Spent;
    var state := StateAt(b, a.price, a.tick);
    if Quotable(state, leg.amount, leg.fee) {
      var m := Market(b.ticks, b.sorted, leg.zeroForOne, leg.fee.value);
      var s := Start(state, leg.amount, leg.fee);
      RunKeeps(m, s, MAX_ITERATIONS);
      RunIsFair(m, s, MAX_ITERATIONS);
      WayExtends(b.base, b.ticks, b.sorted, start, a.price, Reach(PassOf(m), s, MAX_ITERATIONS).value.price);
    }
  }

  lemma {:induction false} SessionKeepsCovered(b: Book, start: int, a: Account, legs: seq<Leg>)
    requires Open(b, a.price, a.tick) && Covered(b, start, a)
    ensures var r := Session(b, a, legs);
            r.Ok? && Open(b, r.value.price, r.value.tick) && Covered(b, start, r.value)
    decreases |legs|
  {
    hide Deal, Open, Covered;
    if legs != [] {
      DealKeepsCovered(b, start, a, legs[0]);
      SessionKeepsCovered(b, start, Deal(b, a, legs[0]).value, legs[1..]);
    }
  }

  // No sequence of swaps, in any directions, at any fees and across any ticks, takes one token out of
  // the pool without having brought some of the other in.
  lemma NoFreeLunchAcrossTicks(b: Book, price: int, tick: int, legs: seq<Leg>)
    requires Open(b, price, tick)
    ensures var r := Session(b, Account(price, tick, 0, 0), legs);
            && r.Ok?
            && (r.value.net1 <= 0 ==> 0 <= r.value.net0)
            && (r.value.net0 <= 0 ==> 0 <= r.value.net1)
  {
    hide Session, Height, Facing;
    SessionKeepsCovered(b, price, Account(price, tick, 0, 0), legs);
  }

  lemma AtRest(b: Book, price: int, tick: int)
    ensures Covered(b, price, Account(price, tick, 0, 0))
  {
  }

  // A leg is a simulated swap: it pays out what that quotes and takes in no more than was offered.
  lemma DealIsSwap(b: Book, a: Account, leg: Leg)
    requires Open(b, a.price, a.tick) && 0 <= leg.amount
    ensures var r, e := Swap(StateAt(b, a.price, a.tick), b.sorted, leg.amount, leg.zeroForOne, leg.fee), Deal(b, a, leg);
            && r.Ok? && e.Ok? && r.value.sqrtPriceX96After == e.value.price && r.value.tickAfter == e.value.tick
            && 0 <= r.value.amountOut
            && (if leg.zeroForOne then
                  e.value.net1 == a.net1 - r.value.amountOut && e.value.net0 <= a.net0 + leg.amount
                else
                  e.value.net0 == a.net0 - r.value.amountOut && e.value.net1 <= a.net1 + leg.amount)
  {
    hide Reach, RatioOf, Facing, NetUpTo, Spent;
    var state := StateAt(b, a.price, a.tick);
    if Quotable(state, leg.amount, leg.fee) {
      RunKeeps(Market(b.ticks, b.sorted, leg.zeroForOne, leg.fee.value), Start(state, leg.amount, leg.fee), MAX_ITERATIONS);
    }
  }

  lemma TwoDeals(b: Book, a: Account, l1: Leg, l2: Leg)
    requires Deal(b, a, l1).Ok?
    ensures Session(b, a, [l1, l2]) == Deal(b, Deal(b, a, l1).value, l2)
  {
    hide Deal;
    assert [l1, l2][1..] == [l2] && [l2][1..] == [];
    assert Session(b, Deal(b, a, l1).value, [l2]) == Deal(b, Deal(b, a, l1).value, l2);
  }

  // Swapping x in and the whole proceeds back, across any ticks and at any two fees, never returns more
  // than x.
  lemma RoundTripAcrossTicks(b: Book, price: int, tick: int, x: int, zeroForOne: bool, fee1: Option<int>, fee2: Option<int>)
    requires Open(b, price, tick) && 0 < x
    ensures var there := Swap(StateAt(b, price, tick), b.sorted, x, zeroForOne, fee1);
            && there.Ok?
            && var back := Swap(StateAt(b, there.value.sqrtPriceX96After, there.value.tickAfter), b.sorted,
                                there.value.amountOut, !zeroForOne, fee2);
               back.Ok? && back.value.amountOut <= x
  {
    hide Swap, Deal, Session, Open, StateAt;
    var a := Account(price, tick, 0, 0);
    var there := Leg(zeroForOne, x, fee1);
    AtRest(b, price, tick);
    DealIsSwap(b, a, there);
    DealKeepsCovered(b, price, a, there);
    var e := Deal(b, a, there).value;
    var y := Swap(StateAt(b, price, tick), b.sorted, x, zeroForOne, fee1).value.amountOut;
    var back := Leg(!zeroForOne, y, fee2);
    DealIsSwap(b, e, back);
    NoFreeLunchAcrossTicks(b, price, tick, [there, back]);
    TwoDeals(b, a, there, back);
  }

  // --- Any pool ---

  // A pool state of any liquidity is at some place in a book: what its liquidity has beyond the nets of
  // its ticks is the base.
  function BookOf(state: PoolState, sorted: seq<int>): Book
    requires state.liquidity.Some?
  {
    Book(state.liquidity.value - NetUpTo(state.ticks, sorted, FallbackTick(state)), state.ticks, sorted)
  }

  // The pool a swap leaves, its liquidity changed by the nets between the two ticks.
  function Left(state: PoolState, sorted: seq<int>, r: SwapResult): PoolState
    requires state.liquidity.Some?
  {
    var moved := NetUpTo(state.ticks, sorted, r.tickAfter) - NetUpTo(state.ticks, sorted, FallbackTick(state));
    state.(sqrtPriceX96 := Some(r.sqrtPriceX96After), tick := Some(r.tickAfter), liquidity := Some(state.liquidity.value + moved))
  }

  lemma PoolIsInBook(state: PoolState, sorted: seq<int>, x: int, zeroForOne: bool, fee: Option<int>)
    requires state.initialized && state.sqrtPriceX96.Some? && state.liquidity.Some?
    ensures Swap(state, sorted, x, zeroForOne, fee)
            == Swap(StateAt(BookOf(state, sorted), state.sqrtPriceX96.value, FallbackTick(state)), sorted, x, zeroForOne, fee)
  {
    hide Reach, NetUpTo;
  }

  // So no round trip on it ever returns more than was put in, whatever its liquidity and however few of
  // its ticks are known.
  lemma RoundTripOfPool(
      state: PoolState, sorted: seq<int>, x: int, zeroForOne: bool, fee1: Option<int>, fee2: Option<int>)
    requires state.initialized && state.sqrtPriceX96.Some? && state.liquidity.Some? && 0 < x
    requires Open(BookOf(state, sorted), state.sqrtPriceX96.value, FallbackTick(state))
    ensures var there := Swap(state, sorted, x, zeroForOne, fee1);
            && there.Ok?
            && var back := Swap(Left(state, sorted, there.value), sorted, there.value.amountOut, !zeroForOne, fee2);
               back.Ok? && back.value.amountOut <= x
  {
    hide Swap, Open, NetUpTo;
    var b := BookOf(state, sorted);
    PoolIsInBook(state, sorted, x, zeroForOne, fee1);
    RoundTripAcrossTicks(b, state.sqrtPriceX96.value, FallbackTick(state), x, zeroForOne, fee1, fee2);
    var there := Swap(state, sorted, x, zeroForOne, fee1).value;
    var left := Left(state, sorted, there);
    PoolIsInBook(left, sorted, there.amountOut, !zeroForOne, fee2);
    assert BookOf(left, sorted) == b;
  }

  // And no sequence of swaps from it takes one token out without having brought some of the other in.
  lemma NoFreeLunchOfPool(state: PoolState, sorted: seq<int>, legs: seq<Leg>)
    requires state.initialized && state.sqrtPriceX96.Some? && state.liquidity.Some?
    requires Open(BookOf(state, sorted), state.sqrtPriceX96.value, FallbackTick(state))
    ensures var b, a := BookOf(state, sorted), Account(state.sqrtPriceX96.value, FallbackTick(state), 0, 0);
            && StateAt(b, a.price, a.tick) == state.(fee := None, tick := Some(a.tick))
            && var r := Session(b, a, legs);
               && r.Ok?
               && (r.value.net1 <= 0 ==> 0 <= r.value.net0)
               && (r.value.net0 <= 0 ==> 0 <= r.value.net1)
  {
    hide Session, Open, NetUpTo;
    NoFreeLunchAcrossTicks(BookOf(state, sorted), state.sqrtPriceX96.value, FallbackTick(state), legs);
  }
}
