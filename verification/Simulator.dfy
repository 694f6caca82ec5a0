/** src/routing/simulator.ts: walking a route hop by hop, and ranking the profitable ones. */
module Simulator {
  import opened Addresses
  import opened Outcomes
  import opened Sequences
  import opened BoundedPriority
  import opened Ternary

  // A pool's state: its version (the timestamp, -1 when there is none) and everything else.
  datatype PoolState = PoolState(version: int, data: int)

  type Cache = map<Address, PoolState>

  // What a swap needs besides the state; a hop may carry a live reference to the state as well.
  datatype Leg = Leg(pool: Address, tokenIn: Address, tokenOut: Address, protocol: string, zeroForOne: bool)
  datatype Hop = Hop(leg: Leg, stateRef: Option<PoolState>)
  datatype Route = Route(startToken: Address, hops: seq<Hop>)

  // The protocol swap functions, as one function of leg, amount and state.
  datatype Quote = Quote(amountOut: int, gas: int)
  type Quoter = (Leg, int, PoolState) -> Quote

  datatype RouteResult = RouteResult(
    amountIn: int, amountOut: int, hopAmounts: seq<int>, totalGas: int, poolPath: seq<Address>, tokenPath: seq<Address>)
  {
    function Profit(): int { amountOut - amountIn }
  }

  // A live reference wins over the cache.
  function LookupPoolState(h: Hop, cache: Cache): Option<PoolState> {
    if h.stateRef.Some? then h.stateRef
    else if h.leg.pool in cache then Some(cache[h.leg.pool]) else None
  }

  function SimulateHop(quote: Quoter, h: Hop, amountIn: int, cache: Cache): Quote {
    if amountIn <= 0 then Quote(0, 0)
    else
      match LookupPoolState(h, cache)
      case None => Quote(0, 0)
      case Some(state) => quote(h.leg, amountIn, state)
  }

  // The loop variables of a route simulation.
  datatype Walk = Walk(
    current: int, expected: Address, hopAmounts: seq<int>, gas: int, pools: seq<Address>, tokens: seq<Address>, halted: bool)

  function Step(quote: Quoter, cache: Cache, w: Walk, h: Hop): Walk {
    if h.leg.tokenIn != w.expected then w.(current := 0, halted := true)
    else
      var q := SimulateHop(quote, h, w.current, cache);
      Walk(q.amountOut, h.leg.tokenOut, w.hopAmounts + [q.amountOut], w.gas + q.gas,
           w.pools + [h.leg.pool], w.tokens + [h.leg.tokenOut], q.amountOut == 0)
  }

  function WalkAll(quote: Quoter, cache: Cache, w: Walk, hops: seq<Hop>): Walk
    decreases |hops|
  {
    if hops == [] || w.halted then w else WalkAll(quote, cache, Step(quote, cache, w, hops[0]), hops[1..])
  }

  function Begin(r: Route, amountIn: int): Walk {
    Walk(if r.hops == [] then 0 else amountIn, r.startToken, [amountIn], 0, [], [r.startToken], false)
  }

  function Simulate(quote: Quoter, r: Route, amountIn: int, cache: Cache): RouteResult {
    var start := Begin(r, amountIn);
    var w := if start.current > 0 then WalkAll(quote, cache, start, r.hops) else start;
    var out := if w.current > 0 && w.expected != r.startToken then 0 else w.current;
    RouteResult(amountIn, out, w.hopAmounts, w.gas, w.pools, w.tokens)
  }

  method SimulateRoute(quote: Quoter, r: Route, amountIn: int, cache: Cache) returns (res: RouteResult)
    ensures res == Simulate(quote, r, amountIn, cache)
  {
    var w := Begin(r, amountIn);
    if w.current > 0 {
      ghost var start := w;
      var i := 0;
      while i < |r.hops| && !w.halted
        invariant 0 <= i <= |r.hops|
        invariant WalkAll(quote, cache, w, r.hops[i..]) == WalkAll(quote, cache, start, r.hops)
      {
        w := Step(quote, cache, w, r.hops[i]);
        i := i + 1;
      }
    }
    var out := w.current;
    if out > 0 && w.expected != r.startToken {
      out := 0;
    }
    res := RouteResult(amountIn, out, w.hopAmounts, w.gas, w.pools, w.tokens);
  }

  // --- A paying route is a closed chain of swaps ---

  // amounts[i + 1] is what hop i pays for amounts[i], from its own state.
  predicate Chained(quote: Quoter, cache: Cache, hops: seq<Hop>, amounts: seq<int>) {
    && |amounts| == |hops| + 1
    && forall i :: 0 <= i < |hops| ==>
         amounts[i] > 0 && amounts[i + 1] == SimulateHop(quote, hops[i], amounts[i], cache).amountOut
  }

  predicate Linked(from: Address, hops: seq<Hop>, to: Address)
    decreases |hops|
  {
    if hops == [] then from == to else hops[0].leg.tokenIn == from && Linked(hops[0].leg.tokenOut, hops[1..], to)
  }

  lemma {:induction false} WalkPays(quote: Quoter, cache: Cache, w: Walk, hops: seq<Hop>)
    requires w.current > 0 && !w.halted && |w.hopAmounts| > 0 && w.hopAmounts[|w.hopAmounts| - 1] == w.current
    ensures var e := WalkAll(quote, cache, w, hops);
            e.current > 0 ==>
              && w.hopAmounts <= e.hopAmounts && Chained(quote, cache, hops, e.hopAmounts[|w.hopAmounts| - 1..])
              && e.current == e.hopAmounts[|e.hopAmounts| - 1] && Linked(w.expected, hops, e.expected)
    decreases |hops|
  {
    hide SimulateHop, Chained, Linked;
    if hops == [] {
      WalkEnds(quote, cache, w);
    } else {
      var m := Step(quote, cache, w, hops[0]);
      var e := WalkAll(quote, cache, m, hops[1..]);
      LinkOne(w.expected, hops, e.expected);
      if m.halted || m.current <= 0 {
        NothingComesOfNothing(quote, cache, m, hops[1..]);
      } else {
        WalkPays(quote, cache, m, hops[1..]);
        if e.current > 0 {
          var k := |w.hopAmounts| - 1;
          assert e.hopAmounts[k] == w.current;
          assert e.hopAmounts[k..][1..] == e.hopAmounts[k + 1..];
          ChainOneMore(quote, cache, hops, e.hopAmounts[k..]);
        }
      }
    }
  }

  lemma WalkEnds(quote: Quoter, cache: Cache, w: Walk)
    requires |w.hopAmounts| > 0
    ensures Chained(quote, cache, [], w.hopAmounts[|w.hopAmounts| - 1..]) && Linked(w.expected, [], w.expected)
  {
  }

  lemma LinkOne(from: Address, hops: seq<Hop>, to: Address)
    requires hops != []
    ensures Linked(from, hops, to) <==> hops[0].leg.tokenIn == from && Linked(hops[0].leg.tokenOut, hops[1..], to)
  {
  }

  lemma ChainOneMore(quote: Quoter, cache: Cache, hops: seq<Hop>, amounts: seq<int>)
    requires hops != [] && |amounts| > 1 && amounts[0] > 0
    requires amounts[1] == SimulateHop(quote, hops[0], amounts[0], cache).amountOut
    requires Chained(quote, cache, hops[1..], amounts[1..])
    ensures Chained(quote, cache, hops, amounts)
  {
  }

  lemma {:induction false} NothingComesOfNothing(quote: Quoter, cache: Cache, w: Walk, hops: seq<Hop>)
    requires w.current <= 0
    ensures WalkAll(quote, cache, w, hops).current <= 0
    decreases |hops|
  {
  }

  // A route that returns anything starts and ends at its start token, every hop takes the token and
  // the whole amount the hop before it paid, and the result is what the last hop pays.
  lemma PayingRouteIsAChain(quote: Quoter, r: Route, amountIn: int, cache: Cache)
    ensures var res := Simulate(quote, r, amountIn, cache);
            res.amountOut > 0 ==>
              && amountIn > 0 && r.hops != [] && Linked(r.startToken, r.hops, r.startToken)
              && Chained(quote, cache, r.hops, res.hopAmounts)
              && res.hopAmounts[0] == amountIn && res.amountOut == res.hopAmounts[|r.hops|]
  {
    var start := Begin(r, amountIn);
    if start.current > 0 {
      WalkPays(quote, cache, start, r.hops);
      var e := WalkAll(quote, cache, start, r.hops);
      assert e.hopAmounts[0..] == e.hopAmounts;
    }
  }

  // The state a hop is quoted from: its live reference, or else the cached state of its pool.
  predicate Sees(h: Hop, cache: Cache, state: PoolState) {
    if h.stateRef.Some? then h.stateRef.value == state else h.leg.pool in cache && cache[h.leg.pool] == state
  }

  lemma HopIsQuoted(quote: Quoter, h: Hop, amountIn: int, cache: Cache)
    ensures forall state :: 0 < amountIn && Sees(h, cache, state) ==>
              SimulateHop(quote, h, amountIn, cache) == quote(h.leg, amountIn, state)
    ensures amountIn <= 0 || (forall state :: !Sees(h, cache, state)) ==>
              SimulateHop(quote, h, amountIn, cache) == Quote(0, 0)
  {
    if h.stateRef.None? && h.leg.pool in cache {
      assert Sees(h, cache, cache[h.leg.pool]);
    }
    if h.stateRef.Some? {
      assert Sees(h, cache, h.stateRef.value);
    }
  }

  // The gas of the hops of a chain, and its pools and tokens.
  function ChainGas(quote: Quoter, cache: Cache, hops: seq<Hop>, amounts: seq<int>): int
    requires |amounts| == |hops| + 1
    decreases |hops|
  {
    if hops == [] then 0
    else SimulateHop(quote, hops[0], amounts[0], cache).gas + ChainGas(quote, cache, hops[1..], amounts[1..])
  }

  lemma {:induction false} WalkFollows(quote: Quoter, cache: Cache, w: Walk, hops: seq<Hop>, amounts: seq<int>, to: Address)
    requires !w.halted && |amounts| == |hops| + 1 && amounts[0] == w.current
    requires Chained(quote, cache, hops, amounts) && Linked(w.expected, hops, to) && amounts[|hops|] > 0
    ensures var e := WalkAll(quote, cache, w, hops);
            && e.current == amounts[|hops|] && e.expected == to && e.hopAmounts == w.hopAmounts + amounts[1..]
            && e.gas == w.gas + ChainGas(quote, cache, hops, amounts)
            && e.pools == w.pools + seq(|hops|, i requires 0 <= i < |hops| => hops[i].leg.pool)
            && e.tokens == w.tokens + seq(|hops|, i requires 0 <= i < |hops| => hops[i].leg.tokenOut)
    decreases |hops|
  {
    hide SimulateHop;
    if hops == [] {
      assert amounts[1..] == [];
    } else {
      var m := Step(quote, cache, w, hops[0]);
      assert amounts[1] == m.current && amounts[1] > 0;
      assert Chained(quote, cache, hops[1..], amounts[1..]);
      WalkFollows(quote, cache, m, hops[1..], amounts[1..], to);
      assert m.hopAmounts + amounts[1..][1..] == w.hopAmounts + amounts[1..];
    }
  }

  // And every such chain pays: the result is what its last hop pays, with the amounts along the way, the
  // pools and tokens in order, and the gas of all hops.
  lemma ChainPays(quote: Quoter, r: Route, amountIn: int, cache: Cache, amounts: seq<int>)
    requires r.hops != [] && Linked(r.startToken, r.hops, r.startToken)
    requires Chained(quote, cache, r.hops, amounts) && amounts[0] == amountIn && amounts[|r.hops|] > 0
    ensures var res := Simulate(quote, r, amountIn, cache);
            && res.amountIn == amountIn && res.amountOut == amounts[|r.hops|] && res.hopAmounts == amounts
            && res.totalGas == ChainGas(quote, cache, r.hops, amounts)
            && res.poolPath == seq(|r.hops|, i requires 0 <= i < |r.hops| => r.hops[i].leg.pool)
            && res.tokenPath == [r.startToken] + seq(|r.hops|, i requires 0 <= i < |r.hops| => r.hops[i].leg.tokenOut)
  {
    hide SimulateHop;
    WalkFollows(quote, cache, Begin(r, amountIn), r.hops, amounts, r.startToken);
    assert [amountIn] + amounts[1..] == amounts;
  }

  // --- A simulation depends only on the states its hops see ---

  predicate SeesTheSame(r: Route, cache: Cache, q: Route, other: Cache) {
    && r.startToken == q.startToken && |r.hops| == |q.hops|
    && forall i :: 0 <= i < |r.hops| ==>
         r.hops[i].leg == q.hops[i].leg && LookupPoolState(r.hops[i], cache) == LookupPoolState(q.hops[i], other)
  }

  lemma {:induction false} WalkIsLocal(quote: Quoter, w: Walk, hops: seq<Hop>, cache: Cache, seen: seq<Hop>, other: Cache)
    requires |hops| == |seen|
    requires forall i :: 0 <= i < |hops| ==>
               hops[i].leg == seen[i].leg && LookupPoolState(hops[i], cache) == LookupPoolState(seen[i], other)
    ensures WalkAll(quote, cache, w, hops) == WalkAll(quote, other, w, seen)
    decreases |hops|
  {
    if hops != [] && !w.halted {
      assert Step(quote, cache, w, hops[0]) == Step(quote, other, w, seen[0]);
      WalkIsLocal(quote, Step(quote, cache, w, hops[0]), hops[1..], cache, seen[1..], other);
    }
  }

  lemma SimulateIsLocal(quote: Quoter, r: Route, cache: Cache, q: Route, other: Cache, amountIn: int)
    requires SeesTheSame(r, cache, q, other)
    ensures Simulate(quote, r, amountIn, cache) == Simulate(quote, q, amountIn, other)
  {
    WalkIsLocal(quote, Begin(r, amountIn), r.hops, cache, q.hops, other);
  }

  // --- Evaluating a batch ---

  const DEFAULT_MIN_AMOUNT: int := 1_000
  const DEFAULT_MAX_AMOUNT: int := 1_000_000_000_000_000_000_000_000
  const DEFAULT_ITERATIONS: nat := 40

  function ProfitAt(quote: Quoter, r: Route, cache: Cache): int -> int {
    (amount: int) => Simulate(quote, r, amount, cache).Profit()
  }

  // The result kept for a route: none unless the test amount is profitable, re-sized when asked.
  function Keep(quote: Quoter, cache: Cache, testAmount: int, optimize: bool, r: Route): Option<RouteResult> {
    var res := Simulate(quote, r, testAmount, cache);
    if res.Profit() <= 0 then None
    else if !optimize then Some(res)
    else
      var best := BestAmount(ProfitAt(quote, r, cache), DEFAULT_MIN_AMOUNT, DEFAULT_MAX_AMOUNT, DEFAULT_ITERATIONS);
      if best.Some? && Simulate(quote, r, best.value, cache).Profit() > 0 then Some(Simulate(quote, r, best.value, cache))
      else Some(res)
  }

  lemma {:induction false} RoundsExtensional(f: int -> int, g: int -> int, h: Hunt, n: nat)
    requires forall a :: f(a) == g(a)
    ensures Rounds(f, h, n) == Rounds(g, h, n)
    decreases n
  {
    if n > 0 && Third(h) > 0 {
      RoundsExtensional(f, g, Narrow(f, h), n - 1);
    }
  }

  lemma KeepIsLocal(quote: Quoter, r: Route, cache: Cache, q: Route, other: Cache, testAmount: int, optimize: bool)
    requires SeesTheSame(r, cache, q, other)
    ensures Keep(quote, cache, testAmount, optimize, r) == Keep(quote, other, testAmount, optimize, q)
  {
    hide Simulate, SeesTheSame, BestAmount;
    SimulateIsLocal(quote, r, cache, q, other, testAmount);
    var f, g := ProfitAt(quote, r, cache), ProfitAt(quote, q, other);
    forall a
      ensures f(a) == g(a)
    {
      SimulateIsLocal(quote, r, cache, q, other, a);
    }
    BestIsExtensional(f, g, DEFAULT_MIN_AMOUNT, DEFAULT_MAX_AMOUNT, DEFAULT_ITERATIONS);
    var best := BestAmount(f, DEFAULT_MIN_AMOUNT, DEFAULT_MAX_AMOUNT, DEFAULT_ITERATIONS);
    if best.Some? {
      SimulateIsLocal(quote, r, cache, q, other, best.value);
    }
  }

  lemma BestIsExtensional(f: int -> int, g: int -> int, lo: int, hi: int, n: nat)
    requires forall a :: f(a) == g(a)
    ensures BestAmount(f, lo, hi, n) == BestAmount(g, lo, hi, n)
  {
    RoundsExtensional(f, g, Hunt(lo, hi, None), n);
  }

  // Profitable items with their results, most profitable first; T is the caller's path type.
  datatype Entry<T> = Entry(path: T, result: RouteResult)

  function KeepOne<T>(quote: Quoter, cache: Cache, testAmount: int, optimize: bool, route: T -> Route): T -> seq<Entry<T>> {
    (t: T) =>
      match Keep(quote, cache, testAmount, optimize, route(t))
      case None => []
      case Some(res) => [Entry(t, res)]
  }

  function ByProfit<T>(): Entry<T> -> int {
    (e: Entry<T>) => -e.result.Profit()
  }

  function Evaluated<T>(quote: Quoter, cache: Cache, testAmount: int, optimize: bool, route: T -> Route, paths: seq<T>)
    : seq<Entry<T>>
  {
    StableSort(FlatMap(paths, KeepOne(quote, cache, testAmount, optimize, route)), ByProfit())
  }

  // --- The ranking ---

  predicate MostProfitableFirst<T>(es: seq<Entry<T>>) {
    forall i, j :: 0 <= i < j < |es| ==>
      es[j].result.amountOut - es[j].result.amountIn <= es[i].result.amountOut - es[i].result.amountIn
  }

  lemma SortRanks<T>(es: seq<Entry<T>>)
    ensures MostProfitableFirst(StableSort(es, ByProfit()))
  {
    hide StableSort;
    StableSortSorts(es, ByProfit());
    SortedIsMostProfitableFirst(StableSort(es, ByProfit()));
  }

  lemma SortedIsMostProfitableFirst<T>(es: seq<Entry<T>>)
    ensures SortedBy(es, ByProfit()) <==> MostProfitableFirst(es)
  {
  }

  // What a path is kept for: its test amount pays, and where sizing is asked for and finds a profit the
  // result is that of the amount found between 10^3 and 10^24 in 40 rounds.
  ghost predicate Fits(quote: Quoter, cache: Cache, testAmount: int, optimize: bool, r: Route, res: RouteResult) {
    exists profit: int -> int ::
      && (forall a :: profit(a) == Simulate(quote, r, a, cache).amountOut - a)
      && 0 < profit(testAmount)
      && var sized := BestAmount(profit, 1_000, 1_000_000_000_000_000_000_000_000, 40);
         res == Simulate(quote, r, if optimize && sized.Some? && 0 < profit(sized.value) then sized.value else testAmount, cache)
  }

  lemma KeepFits(quote: Quoter, cache: Cache, testAmount: int, optimize: bool, r: Route)
    ensures var kept := Keep(quote, cache, testAmount, optimize, r);
            && (kept.Some? <==> testAmount < Simulate(quote, r, testAmount, cache).amountOut)
            && (kept.Some? ==> Fits(quote, cache, testAmount, optimize, r, kept.value)
                               && kept.value.amountIn < kept.value.amountOut)
  {
    hide BestAmount, WalkAll;
    var profit := ProfitAt(quote, r, cache);
    assert forall a :: profit(a) == Simulate(quote, r, a, cache).amountOut - a;
  }

  // What evaluatePaths answers: exactly the paths whose test amount pays, each position once, the most
  // profitable first, equal profits in path order, every result a profit and the sized one where asked.
  lemma EvaluatedIsRanked<T>(
      quote: Quoter, cache: Cache, testAmount: int, optimize: bool, route: T -> Route, paths: seq<T>)
    returns (at: seq<nat>)
    ensures var es := Evaluated(quote, cache, testAmount, optimize, route, paths);
            && |at| == |es|
            && (forall i :: 0 <= i < |es| ==>
                  && at[i] < |paths| && es[i].path == paths[at[i]]
                  && es[i].result.amountIn < es[i].result.amountOut
                  && Fits(quote, cache, testAmount, optimize, route(es[i].path), es[i].result))
            && (forall p :: 0 <= p < |paths| ==>
                  (p in at <==> testAmount < Simulate(quote, route(paths[p]), testAmount, cache).amountOut))
            && (forall i, j :: 0 <= i < j < |es| ==>
                  var a, b := es[i].result.amountOut - es[i].result.amountIn, es[j].result.amountOut - es[j].result.amountIn;
                  at[i] != at[j] && (a > b || (a == b && at[i] < at[j])))
  {
    hide Fits, Simulate, Keep, StableSort, FlatMap;
    var keep := KeepOne(quote, cache, testAmount, optimize, route);
    var kept := FlatMap(paths, keep);
    var from := FlatMapPositions(paths, keep);
    var ranks := StableSortRanks(kept, ByProfit());
    var es := Evaluated(quote, cache, testAmount, optimize, route, paths);
    at := seq(|ranks|, i requires 0 <= i < |ranks| => from[ranks[i]]);
    forall i | 0 <= i < |es|
      ensures at[i] < |paths| && keep(paths[at[i]]) == [es[i]]
    {
    }
    forall i | 0 <= i < |es|
      ensures es[i].path == paths[at[i]] && es[i].result.amountIn < es[i].result.amountOut
      ensures Fits(quote, cache, testAmount, optimize, route(es[i].path), es[i].result)
    {
      KeepFits(quote, cache, testAmount, optimize, route(paths[at[i]]));
    }
    forall p | 0 <= p < |paths|
      ensures p in at <==> testAmount < Simulate(quote, route(paths[p]), testAmount, cache).amountOut
    {
      KeepFits(quote, cache, testAmount, optimize, route(paths[p]));
      if p in from {
        var k :| 0 <= k < |from| && from[k] == p;
        assert k in ranks;
        var i :| 0 <= i < |ranks| && ranks[i] == k;
        assert at[i] == p;
      }
    }
  }

  method EvaluatePaths<T>(quote: Quoter, cache: Cache, testAmount: int, optimize: bool, route: T -> Route, paths: seq<T>)
    returns (profitable: seq<Entry<T>>)
    ensures profitable == Evaluated(quote, cache, testAmount, optimize, route, paths)
    ensures MostProfitableFirst(profitable)
  {
    hide FlatMap, StableSort, Simulate, BestAmount, MostProfitableFirst;
    profitable := [];
    ghost var keep := KeepOne(quote, cache, testAmount, optimize, route);
    FlatMapEnds(paths, keep);
    for i := 0 to |paths|
      invariant profitable == FlatMap(paths[..i], keep)
    {
      FlatMapSnoc(paths, i, keep);
      var r := route(paths[i]);
      var result := SimulateRoute(quote, r, testAmount, cache);
      if result.Profit() > 0 {
        if optimize {
          var best := OptimizeInputAmount(ProfitAt(quote, r, cache), a => Simulate(quote, r, a, cache).Profit() > 0,
                                          DEFAULT_MIN_AMOUNT, DEFAULT_MAX_AMOUNT, DEFAULT_ITERATIONS);
          if best.Some? {
            result := SimulateRoute(quote, r, best.value, cache);
          }
        }
        profitable := profitable + [Entry(paths[i], result)];
      }
    }
    SortRanks(profitable);
    profitable := StableSort(profitable, ByProfit());
  }
}
