/** src/math/uniswap_v3.ts: an exact-input swap across initialised ticks. */
module UniswapV3 {
  import opened SwapMath
  import opened TickRatio
  import opened TickMath
  import opened Outcomes

  // --- Ticks in order ---

  predicate Sorted(s: seq<int>) {
    forall i, j :: 0 <= i < j < |s| ==> s[i] < s[j]
  }

  // Tick t is still ahead of a swap standing at `current`.
  predicate Ahead(t: int, current: int, zeroForOne: bool) {
    if zeroForOne then t <= current else current < t
  }

  // Going from a, a swap meets b no later than c.
  predicate NoLater(b: int, c: int, zeroForOne: bool) {
    if zeroForOne then c <= b else b <= c
  }

  predicate IsNextTick(ticks: seq<int>, current: int, zeroForOne: bool, r: Option<int>) {
    match r
    case None => forall t :: t in ticks ==> !Ahead(t, current, zeroForOne)
    case Some(n) =>
      && n in ticks && Ahead(n, current, zeroForOne)
      && forall t :: t in ticks && Ahead(t, current, zeroForOne) ==> NoLater(n, t, zeroForOne)
  }

  function NextTick(ticks: seq<int>, current: int, zeroForOne: bool): (r: Option<int>)
    ensures Sorted(ticks) ==> IsNextTick(ticks, current, zeroForOne, r)
  {
    if ticks == [] then None
    else if zeroForOne then
      var last := ticks[|ticks| - 1];
      if last <= current then Some(last) else NextTick(ticks[..|ticks| - 1], current, zeroForOne)
    else
      if current < ticks[0] then Some(ticks[0]) else NextTick(ticks[1..], current, zeroForOne)
  }

  lemma NextTickUnique(ticks: seq<int>, current: int, zeroForOne: bool, q: Option<int>, r: Option<int>)
    requires IsNextTick(ticks, current, zeroForOne, q) && IsNextTick(ticks, current, zeroForOne, r)
    ensures q == r
  {
  }

  // The binary search finds the nearest initialised tick in the direction of the trade.
  method NextInitializedTick(ticks: seq<int>, current: int, zeroForOne: bool) returns (r: Option<int>)
    requires Sorted(ticks)
    ensures r == NextTick(ticks, current, zeroForOne)
  {
    var low, high := 0, |ticks| - 1;
    r := None;
    if zeroForOne {
      while low <= high
        invariant 0 <= low <= high + 1 <= |ticks|
        invariant r == if low == 0 then None else Some(ticks[low - 1])
        invariant forall i :: 0 <= i < low ==> ticks[i] <= current
        invariant forall i :: high < i < |ticks| ==> current < ticks[i]
      {
        var mid := (low + high) / 2;
        if ticks[mid] <= current {
          r := Some(ticks[mid]);
          low := mid + 1;
        } else {
          high := mid - 1;
        }
      }
    } else {
      while low <= high
        invariant 0 <= low <= high + 1 <= |ticks|
        invariant r == if high == |ticks| - 1 then None else Some(ticks[high + 1])
        invariant forall i :: 0 <= i < low ==> ticks[i] <= current
        invariant forall i :: high < i < |ticks| ==> current < ticks[i]
      {
        var mid := (low + high) / 2;
        if ticks[mid] > current {
          r := Some(ticks[mid]);
          high := mid - 1;
        } else {
          low := mid + 1;
        }
      }
    }
    assert IsNextTick(ticks, current, zeroForOne, r);
    NextTickUnique(ticks, current, zeroForOne, r, NextTick(ticks, current, zeroForOne));
  }

  // How many ticks a swap standing at `current` can still cross.
  function TicksAhead(ticks: seq<int>, current: int, zeroForOne: bool): (n: nat)
    ensures n <= |ticks|
  {
    if ticks == [] then 0
    else (if Ahead(ticks[0], current, zeroForOne) then 1 else 0) + TicksAhead(ticks[1..], current, zeroForOne)
  }

  lemma {:induction false} FewerTicksAhead(ticks: seq<int>, before: int, after: int, zeroForOne: bool)
    requires if zeroForOne then after <= before else before <= after
    ensures TicksAhead(ticks, after, zeroForOne) <= TicksAhead(ticks, before, zeroForOne)
    ensures (exists t :: t in ticks && Ahead(t, before, zeroForOne) && !Ahead(t, after, zeroForOne)) ==>
              TicksAhead(ticks, after, zeroForOne) < TicksAhead(ticks, before, zeroForOne)
  {
    if ticks != [] {
      FewerTicksAhead(ticks[1..], before, after, zeroForOne);
    }
  }

  // --- Pool state and the swap loop ---

  // Fields that fail to parse are None; `ticks` maps an initialised tick to its net liquidity.
  datatype PoolState = PoolState(
    initialized: bool,
    sqrtPriceX96: Option<int>,
    liquidity: Option<int>,
    fee: Option<int>,
    tick: Option<int>,
    ticks: map<int, int>)

  datatype SwapResult = SwapResult(amountOut: int, sqrtPriceX96After: int, tickAfter: int, gasEstimate: int)

  // The part of a swap that does not change.
  datatype Market = Market(ticks: map<int, int>, sorted: seq<int>, zeroForOne: bool, feePips: int)

  // The loop variables; `stopped` records that the loop body left the loop.
  datatype Progress = Progress(
    price: int, tick: int, liquidity: int, remaining: int, out: int, crossed: nat, stopped: bool)

  const MAX_ITERATIONS: nat := 500

  function Limit(zeroForOne: bool): int {
    if zeroForOne then MIN_SQRT_RATIO + 1 else MAX_SQRT_RATIO - 1
  }

  function Clamp(zeroForOne: bool, price: int): int {
    if zeroForOne then (if price < Limit(true) then Limit(true) else price)
    else if price > Limit(false) then Limit(false) else price
  }

  function NextPrice(m: Market, next: Option<int>): Result<int> {
    if next.Some? then GetSqrtRatioAtTick(next.value) else Ok(Limit(m.zeroForOne))
  }

  // Crossing an initialised tick: adopt the liquidity on its other side.
  function Cross(m: Market, s: Progress, next: int): Progress {
    var net := if next in m.ticks then m.ticks[next] else 0;
    var liquidity := if m.zeroForOne then s.liquidity - net else s.liquidity + net;
    s.(liquidity := liquidity,
       crossed := s.crossed + (if next in m.ticks then 1 else 0),
       tick := if m.zeroForOne then next - 1 else next,
       stopped := liquidity <= 0)
  }

  // Stopping inside a range: the tick is searched between the last known tick and the next one.
  ghost function Settle(m: Market, s: Progress, next: Option<int>): Result<Progress> {
    var minTick := if m.zeroForOne then (if next.Some? then next.value else MIN_TICK) else s.tick;
    var maxTick := if m.zeroForOne then s.tick else if next.Some? then next.value - 1 else MAX_TICK;
    var tick :- TickSearch(s.price, minTick, maxTick);
    Ok(s.(tick := tick, stopped := true))
  }

  // One pass through the loop body.
  ghost function Iterate(m: Market, s: Progress): Result<Progress> {
    var next := NextTick(m.sorted, s.tick, m.zeroForOne);
    var nextPrice :- NextPrice(m, next);
    var step :- ComputeSwapStep(s.price, Clamp(m.zeroForOne, nextPrice), s.liquidity, s.remaining, m.feePips);
    var moved := s.(price := step.sqrtRatioNext,
                    remaining := s.remaining - (step.amountIn + step.feeAmount),
                    out := s.out + step.amountOut);
    if step.sqrtRatioNext == nextPrice && next.Some? then Ok(Cross(m, moved, next.value))
    else Settle(m, moved, next)
  }

  // One pass as a function of the loop variables alone.
  ghost function PassOf(m: Market): Progress -> Result<Progress> {
    (s: Progress) => Iterate(m, s)
  }

  predicate Running(s: Progress) {
    s.remaining > 0 && !s.stopped
  }

  // At most n passes of any kind.
  ghost function Reach(pass: Progress -> Result<Progress>, s: Progress, n: nat): Result<Progress>
    decreases n
  {
    if n == 0 || !Running(s) then Ok(s)
    else
      var next :- pass(s);
      Reach(pass, next, n - 1)
  }

  lemma {:induction false} ReachOneMore(pass: Progress -> Result<Progress>, s: Progress, n: nat)
    ensures Reach(pass, s, n).Err? ==> Reach(pass, s, n + 1) == Reach(pass, s, n)
    ensures Reach(pass, s, n).Ok? ==>
              Reach(pass, s, n + 1) == if Running(Reach(pass, s, n).value) then pass(Reach(pass, s, n).value)
                                       else Reach(pass, s, n)
    decreases n
  {
    if n > 0 && Running(s) && pass(s).Ok? {
      ReachOneMore(pass, pass(s).value, n - 1);
    } else if n == 0 && Running(s) && pass(s).Ok? {
      assert Reach(pass, pass(s).value, 0) == Ok(pass(s).value);
    }
  }

  // Once the loop has left, by an exception or by its condition, more passes change nothing.
  lemma {:induction false} ReachSettles(pass: Progress -> Result<Progress>, s: Progress, n: nat, k: nat)
    requires Reach(pass, s, n).Ok? ==> !Running(Reach(pass, s, n).value)
    ensures Reach(pass, s, n + k) == Reach(pass, s, n)
    decreases k
  {
    hide Reach;
    if k > 0 {
      ReachSettles(pass, s, n, k - 1);
      ReachOneMore(pass, s, n + k - 1);
    }
  }

  // The input the source accepts; anything else quotes zero.
  predicate Quotable(state: PoolState, amountIn: int, fee: Option<int>) {
    && amountIn > 0 && state.initialized
    && state.sqrtPriceX96.Some? && MIN_SQRT_RATIO <= state.sqrtPriceX96.value < MAX_SQRT_RATIO
    && state.liquidity.Some? && state.liquidity.value > 0
    && fee.Some? && 0 <= fee.value < PIPS
  }

  function FallbackTick(state: PoolState): int {
    if state.tick.Some? then state.tick.value else 0
  }

  function Start(state: PoolState, amountIn: int, fee: Option<int>): Progress
    requires Quotable(state, amountIn, fee)
  {
    Progress(state.sqrtPriceX96.value, FallbackTick(state), state.liquidity.value, amountIn, 0, 0, false)
  }

  ghost function Swap(state: PoolState, sorted: seq<int>, amountIn: int, zeroForOne: bool, fee: Option<int>)
    : Result<SwapResult>
  {
    if !Quotable(state, amountIn, fee) then
      Ok(SwapResult(0, if state.sqrtPriceX96.Some? then state.sqrtPriceX96.value else 0, FallbackTick(state), 0))
    else
      var end :- Reach(PassOf(Market(state.ticks, sorted, zeroForOne, fee.value)), Start(state, amountIn, fee), MAX_ITERATIONS);
      Ok(SwapResult(end.out, end.price, end.tick, 130000 + end.crossed * 30000))
  }

  // The loop body.
  method Pass(m: Market, s: Progress) returns (r: Result<Progress>)
    requires Sorted(m.sorted)
    ensures r == Iterate(m, s)
  {
    hide GetSqrtRatioAtTick, ComputeSwapStep, TickSearch;
    var next := NextInitializedTick(m.sorted, s.tick, m.zeroForOne);
    var nextPrice :- NextPrice(m, next);
    var target := Clamp(m.zeroForOne, nextPrice);
    var step :- ComputeSwapStep(s.price, target, s.liquidity, s.remaining, m.feePips);
    var price, tick, liquidity, crossed, stopped := step.sqrtRatioNext, s.tick, s.liquidity, s.crossed, s.stopped;
    var remaining := s.remaining - (step.amountIn + step.feeAmount);
    var out := s.out + step.amountOut;
    if price == nextPrice && next.Some? {
      if next.value in m.ticks {
        liquidity := if m.zeroForOne then liquidity - m.ticks[next.value] else liquidity + m.ticks[next.value];
        crossed := crossed + 1;
      }
      tick := if m.zeroForOne then next.value - 1 else next.value;
      stopped := liquidity <= 0;
    } else {
      var minTick := if m.zeroForOne then (if next.Some? then next.value else MIN_TICK) else tick;
      var maxTick := if m.zeroForOne then tick else if next.Some? then next.value - 1 else MAX_TICK;
      tick :- GetTickAtSqrtRatioInRange(price, minTick, maxTick);
      stopped := true;
    }
    r := Ok(Progress(price, tick, liquidity, remaining, out, crossed, stopped));
  }

  // feeOverride wins over the fee of the state; `sorted` is the ascending list of tick keys.
  method SimulateV3Swap(state: PoolState, sorted: seq<int>, amountIn: int, zeroForOne: bool, feeOverride: Option<int>)
    returns (r: Result<SwapResult>)
    requires Sorted(sorted) && (forall t :: t in sorted <==> t in state.ticks)
    ensures r == Swap(state, sorted, amountIn, zeroForOne, if feeOverride.Some? then feeOverride else state.fee)
  {
    hide Iterate, Reach;
    var fee := if feeOverride.Some? then feeOverride else state.fee;
    if !Quotable(state, amountIn, fee) {
      return Ok(SwapResult(0, if state.sqrtPriceX96.Some? then state.sqrtPriceX96.value else 0, FallbackTick(state), 0));
    }
    var m := Market(state.ticks, sorted, zeroForOne, fee.value);
    var s := Start(state, amountIn, fee);
    ghost var start, pass := s, PassOf(m);
    var i := 0;
    assert Reach(pass, start, 0) == Ok(s) by { ReachNone(pass, start); }
    while i < MAX_ITERATIONS && Running(s)
      invariant 0 <= i <= MAX_ITERATIONS
      invariant Reach(pass, start, i) == Ok(s)
    {
      ReachOneMore(pass, start, i);
      i := i + 1;
      var done := Pass(m, s);
      if done.Err? {
        ReachSettles(pass, start, i, MAX_ITERATIONS - i);
        return Err(done.reason);
      }
      s := done.value;
    }
    if i < MAX_ITERATIONS {
      ReachSettles(pass, start, i, MAX_ITERATIONS - i);
    }
    r := Ok(SwapResult(s.out, s.price, s.tick, 130000 + s.crossed * 30000));
  }

  lemma ReachNone(pass: Progress -> Result<Progress>, s: Progress)
    ensures Reach(pass, s, 0) == Ok(s)
  {
  }
}
