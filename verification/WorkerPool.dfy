/** src/routing/worker_pool.ts, evaluate: a batch of routes evaluated by several workers at once. */
module WorkerPool {
  import opened Addresses
  import opened Outcomes
  import opened Sequences
  import opened BoundedPriority
  import opened Simulator
  import opened WorkerMirror
  import opened EvaluationChunks

  // --- What travels ---

  // The identity of a route: its start token and, hop by hop, pool and tokens.
  datatype RouteKey = RouteKey(startToken: Address, segments: seq<(Address, Address, Address)>)

  function KeyOf(r: Route): (k: RouteKey)
    ensures k.startToken == r.startToken && |k.segments| == |r.hops|
    ensures forall i :: 0 <= i < |r.hops| ==>
              k.segments[i] == (r.hops[i].leg.pool, r.hops[i].leg.tokenIn, r.hops[i].leg.tokenOut)
  {
    RouteKey(r.startToken, seq(|r.hops|, i requires 0 <= i < |r.hops| =>
      (r.hops[i].leg.pool, r.hops[i].leg.tokenIn, r.hops[i].leg.tokenOut)))
  }

  // Two routes have the same key exactly when they start at the same token and go through the same pools
  // from the same tokens to the same tokens.
  lemma KeysAreRoutes(r: Route, q: Route)
    ensures KeyOf(r) == KeyOf(q) <==>
              && r.startToken == q.startToken && |r.hops| == |q.hops|
              && forall i :: 0 <= i < |r.hops| ==>
                   && r.hops[i].leg.pool == q.hops[i].leg.pool
                   && r.hops[i].leg.tokenIn == q.hops[i].leg.tokenIn && r.hops[i].leg.tokenOut == q.hops[i].leg.tokenOut
  {
    var a, b := KeyOf(r).segments, KeyOf(q).segments;
    assert |a| == |r.hops| && |b| == |q.hops|;
    forall i | 0 <= i < |a| && i < |b|
      ensures a[i] == b[i] <==>
                && r.hops[i].leg.pool == q.hops[i].leg.pool
                && r.hops[i].leg.tokenIn == q.hops[i].leg.tokenIn && r.hops[i].leg.tokenOut == q.hops[i].leg.tokenOut
    {
      assert a[i] == (r.hops[i].leg.pool, r.hops[i].leg.tokenIn, r.hops[i].leg.tokenOut);
      assert b[i] == (q.hops[i].leg.pool, q.hops[i].leg.tokenIn, q.hops[i].leg.tokenOut);
    }
    if |a| == |b| && forall i :: 0 <= i < |a| ==> a[i] == b[i] {
      assert a == b;
    }
  }

  // A route as a worker receives it: without the live state references.
  datatype SerialPath = SerialPath(key: RouteKey, route: Route)

  function Plain(r: Route): Route {
    Route(r.startToken, seq(|r.hops|, i requires 0 <= i < |r.hops| => Hop(r.hops[i].leg, None)))
  }

  function Serialise(r: Route): SerialPath {
    SerialPath(KeyOf(r), Plain(r))
  }

  function SerialiseAll(paths: seq<Route>): (r: seq<SerialPath>)
    ensures |r| == |paths| && forall i :: 0 <= i < |r| ==> r[i] == Serialise(paths[i])
  {
    seq(|paths|, i requires 0 <= i < |paths| => Serialise(paths[i]))
  }

  // Later routes replace earlier ones of the same key.
  function ByKey(paths: seq<Route>): map<RouteKey, Route> {
    if paths == [] then map[] else ByKey(paths[..|paths| - 1])[KeyOf(paths[|paths| - 1]) := paths[|paths| - 1]]
  }

  // The results with the caller's own routes put back; a result of unknown key is dropped.
  function Rehydrate(results: seq<Entry<SerialPath>>, originals: map<RouteKey, Route>): seq<Entry<Route>> {
    if results == [] then []
    else
      var rest, last := Rehydrate(results[..|results| - 1], originals), results[|results| - 1];
      if last.path.key in originals then rest + [Entry(originals[last.path.key], last.result)] else rest
  }

  function TheRoute(): SerialPath -> Route {
    (s: SerialPath) => s.route
  }

  function Itself(): Route -> Route {
    (r: Route) => r
  }

  // What to evaluate, as the options say.
  datatype Request = Request(quote: Quoter, testAmount: int, optimize: bool)

  // What a worker that holds `states` makes of a chunk.
  function OnWorker(q: Request, states: Cache, chunk: seq<Route>): seq<Entry<Route>> {
    Rehydrate(Evaluated(q.quote, states, q.testAmount, q.optimize, TheRoute(), SerialiseAll(chunk)), ByKey(chunk))
  }

  // What the main thread alone would make of it.
  function Sequential(q: Request, cache: Cache): seq<Route> -> seq<Entry<Route>> {
    (paths: seq<Route>) => Evaluated(q.quote, cache, q.testAmount, q.optimize, Itself(), paths)
  }

  // --- One chunk ---

  // A live reference, where a hop has one, is the cached state of its pool.
  predicate RefsAreCached(paths: seq<Route>, cache: Cache) {
    forall r, h :: r in paths && h in r.hops && h.stateRef.Some? ==>
      h.leg.pool in cache && cache[h.leg.pool] == h.stateRef.value
  }

  // Different routes have different keys.
  predicate KeysTellApart(paths: seq<Route>) {
    forall r, q :: r in paths && q in paths && KeyOf(r) == KeyOf(q) ==> r == q
  }

  lemma {:induction false} KeysLeadBack(paths: seq<Route>)
    requires KeysTellApart(paths)
    ensures forall r :: r in paths ==> KeyOf(r) in ByKey(paths) && ByKey(paths)[KeyOf(r)] == r
  {
    if paths != [] {
      hide KeyOf;
      var rest := paths[..|paths| - 1];
      assert paths == rest + [paths[|paths| - 1]];
      assert forall r :: r in rest ==> r in paths;
      KeysLeadBack(rest);
    }
  }

  // The worker holds what the cache holds, as far as one pool or the chunk's pools go.
  predicate Holds(states: Cache, cache: Cache, pool: Address) {
    (pool in states <==> pool in cache) && (pool in cache ==> states[pool] == cache[pool])
  }

  ghost predicate Serves(states: Cache, chunk: seq<Route>, cache: Cache) {
    forall p :: p in ChunkPools(chunk) ==> Holds(states, cache, p)
  }

  lemma HopSeesTheSame(states: Cache, chunk: seq<Route>, cache: Cache, r: Route, i: nat)
    requires RefsAreCached(chunk, cache) && r in chunk && i < |r.hops|
    ensures Plain(r).hops[i].leg == r.hops[i].leg && r.hops[i].leg.pool in ChunkPools(chunk)
    ensures LookupPoolState(Plain(r).hops[i], states) == LookupPoolState(r.hops[i], cache)
            <==> Holds(states, cache, r.hops[i].leg.pool)
  {
    assert r.hops[i] in r.hops;
  }

  lemma PoolHasHop(chunk: seq<Route>, p: Address) returns (r: Route, i: nat)
    requires p in ChunkPools(chunk)
    ensures r in chunk && i < |r.hops| && r.hops[i].leg.pool == p
  {
    var q, h :| q in chunk && h in q.hops && h.leg.pool == p;
    r := q;
    i :| 0 <= i < |r.hops| && r.hops[i] == h;
  }

  // That is exactly when every route, without its references, shows the worker what it shows the main
  // thread.
  lemma PlainSeesTheSame(states: Cache, chunk: seq<Route>, cache: Cache)
    requires RefsAreCached(chunk, cache)
    ensures (forall r :: r in chunk ==> SeesTheSame(Plain(r), states, r, cache)) <==> Serves(states, chunk, cache)
  {
    hide RefsAreCached, LookupPoolState, Holds, ChunkPools;
    if Serves(states, chunk, cache) {
      forall r | r in chunk
        ensures SeesTheSame(Plain(r), states, r, cache)
      {
        forall i | 0 <= i < |r.hops| {
          HopSeesTheSame(states, chunk, cache, r, i);
        }
      }
    }
    if forall r :: r in chunk ==> SeesTheSame(Plain(r), states, r, cache) {
      forall p | p in ChunkPools(chunk)
        ensures Holds(states, cache, p)
      {
        var r, i := PoolHasHop(chunk, p);
        assert SeesTheSame(Plain(r), states, r, cache);
        HopSeesTheSame(states, chunk, cache, r, i);
      }
    }
  }

  // Rehydration finds an original for every result.
  predicate Known(results: seq<Entry<SerialPath>>, originals: map<RouteKey, Route>) {
    forall e :: e in results ==> e.path.key in originals
  }

  function Back(e: Entry<SerialPath>, originals: map<RouteKey, Route>): Entry<Route>
    requires e.path.key in originals
  {
    Entry(originals[e.path.key], e.result)
  }

  lemma {:induction false} RehydrateCons(e: Entry<SerialPath>, results: seq<Entry<SerialPath>>, originals: map<RouteKey, Route>)
    requires e.path.key in originals
    ensures Rehydrate([e] + results, originals) == [Back(e, originals)] + Rehydrate(results, originals)
  {
    var all := [e] + results;
    if results == [] {
      assert all[..0] == [];
    } else {
      assert all[..|all| - 1] == [e] + results[..|results| - 1];
      RehydrateCons(e, results[..|results| - 1], originals);
    }
  }

  lemma {:induction false} RehydrateInsert(s: seq<Entry<SerialPath>>, e: Entry<SerialPath>, originals: map<RouteKey, Route>)
    requires Known(s, originals) && e.path.key in originals
    ensures Rehydrate(Insert(s, e, ByProfit()), originals)
         == Insert(Rehydrate(s, originals), Back(e, originals), ByProfit())
  {
    hide Rehydrate, RouteResult.Profit;
    if s == [] {
      NothingBack(originals);
      RehydrateCons(e, [], originals);
      assert [e] + [] == [e] && [Back(e, originals)] + [] == [Back(e, originals)];
    } else {
      assert s == [s[0]] + s[1..];
      RehydrateCons(s[0], s[1..], originals);
      RehydrateCons(e, s, originals);
      RehydrateInsert(s[1..], e, originals);
      RehydrateCons(s[0], Insert(s[1..], e, ByProfit()), originals);
    }
  }

  lemma NothingBack(originals: map<RouteKey, Route>)
    ensures Rehydrate([], originals) == []
  {
  }

  // Putting the originals back commutes with the sort.
  lemma {:induction false} RehydrateSorted(s: seq<Entry<SerialPath>>, originals: map<RouteKey, Route>)
    requires Known(s, originals)
    ensures Rehydrate(StableSort(s, ByProfit()), originals) == StableSort(Rehydrate(s, originals), ByProfit())
  {
    if s != [] {
      var rest, last := s[..|s| - 1], s[|s| - 1];
      RehydrateSorted(rest, originals);
      StableSortSorts(rest, ByProfit());
      assert forall e :: e in StableSort(rest, ByProfit()) ==> e in multiset(rest);
      RehydrateInsert(StableSort(rest, ByProfit()), last, originals);
    }
  }

  // The unsorted results of the worker, put back, are those of the main thread.
  lemma {:induction false} KeptAlike(q: Request, states: Cache, cache: Cache, chunk: seq<Route>, originals: map<RouteKey, Route>)
    requires forall r :: r in chunk ==> SeesTheSame(Plain(r), states, r, cache)
    requires forall r :: r in chunk ==> KeyOf(r) in originals && originals[KeyOf(r)] == r
    ensures var kept := FlatMap(SerialiseAll(chunk), KeepOne(q.quote, states, q.testAmount, q.optimize, TheRoute()));
            && Known(kept, originals)
            && Rehydrate(kept, originals)
               == FlatMap(chunk, KeepOne(q.quote, cache, q.testAmount, q.optimize, Itself()))
  {
    hide SeesTheSame, KeyOf, Plain, KeepOne, FlatMap;
    var onWorker := KeepOne(q.quote, states, q.testAmount, q.optimize, TheRoute());
    var onMain := KeepOne(q.quote, cache, q.testAmount, q.optimize, Itself());
    var serial := SerialiseAll(chunk);
    if chunk == [] {
      FlatMapEnds(chunk, onMain);
      FlatMapEnds(serial, onWorker);
      assert serial == serial[..0] && chunk == chunk[..0];
    } else {
      var rest, last := chunk[..|chunk| - 1], chunk[|chunk| - 1];
      assert forall r :: r in rest ==> r in chunk;
      KeptAlike(q, states, cache, rest, originals);
      assert serial == SerialiseAll(rest) + [Serialise(last)] && chunk == rest + [last];
      FlatMapConcat(SerialiseAll(rest), [Serialise(last)], onWorker);
      FlatMapConcat(rest, [last], onMain);
      FlatMapOne(Serialise(last), onWorker);
      FlatMapOne(last, onMain);
      OneKeptAlike(q, states, cache, last, originals);
      RehydrateConcat(FlatMap(SerialiseAll(rest), onWorker), onWorker(Serialise(last)), originals);
    }
  }

  lemma OneKeptAlike(q: Request, states: Cache, cache: Cache, r: Route, originals: map<RouteKey, Route>)
    requires SeesTheSame(Plain(r), states, r, cache) && KeyOf(r) in originals && originals[KeyOf(r)] == r
    ensures var kept := KeepOne(q.quote, states, q.testAmount, q.optimize, TheRoute())(Serialise(r));
            && Known(kept, originals)
            && Rehydrate(kept, originals) == KeepOne(q.quote, cache, q.testAmount, q.optimize, Itself())(r)
  {
    hide SeesTheSame, KeyOf, Plain, Keep;
    KeepIsLocal(q.quote, Plain(r), states, r, cache, q.testAmount, q.optimize);
    NothingBack(originals);
  }

  lemma {:induction false} RehydrateConcat(a: seq<Entry<SerialPath>>, b: seq<Entry<SerialPath>>, originals: map<RouteKey, Route>)
    ensures Rehydrate(a + b, originals) == Rehydrate(a, originals) + Rehydrate(b, originals)
  {
    if b == [] {
      assert a + b == a;
    } else {
      assert (a + b)[..|a + b| - 1] == a + b[..|b| - 1];
      RehydrateConcat(a, b[..|b| - 1], originals);
    }
  }

  // The answer of a worker that serves a chunk is the sequential evaluation of the chunk, order and
  // ties included.
  lemma ChunkRefines(q: Request, cache: Cache, chunk: seq<Route>, states: Cache)
    requires RefsAreCached(chunk, cache) && KeysTellApart(chunk) && Serves(states, chunk, cache)
    ensures OnWorker(q, states, chunk) == Sequential(q, cache)(chunk)
  {
    hide SeesTheSame, StableSort, FlatMap, KeyOf, RefsAreCached, Rehydrate, Serves;
    var originals := ByKey(chunk);
    KeysLeadBack(chunk);
    PlainSeesTheSame(states, chunk, cache);
    KeptAlike(q, states, cache, chunk, originals);
    RehydrateSorted(FlatMap(SerialiseAll(chunk), KeepOne(q.quote, states, q.testAmount, q.optimize, TheRoute())), originals);
  }

  // A synchronised worker serves its chunk.
  lemma SyncedServes(chunk: seq<Route>, cache: Cache)
    ensures Serves(Restrict(cache, Retained(chunk, cache)), chunk, cache)
  {
  }

  // --- The whole batch ---

  // One chunk on one slot: what the slot held, and what the state objects hold when its sync is answered.
  datatype Work = Work(chunk: seq<Route>, mirror: Mirror, live: Cache) {
    ghost predicate Sound(cache: Cache) {
      Delta(mirror, Retained(chunk, cache), cache) <= live.Keys
    }

    ghost function After(cache: Cache): Mirror {
      if Sound(cache) then Sync(mirror, Retained(chunk, cache), cache, live) else mirror
    }
  }

  ghost function Answer(q: Request, cache: Cache): Work -> seq<Entry<Route>> {
    (w: Work) => if w.Sound(cache) then OnWorker(q, w.After(cache).states, w.chunk) else []
  }

  ghost function Parallel(q: Request, cache: Cache, works: seq<Work>): seq<Entry<Route>> {
    StableSort(FlatMap(works, Answer(q, cache)), ByProfit())
  }

  function Shares(works: seq<Work>): (r: seq<seq<Route>>)
    ensures |r| == |works| && forall i :: 0 <= i < |r| ==> r[i] == works[i].chunk
  {
    seq(|works|, i requires 0 <= i < |works| => works[i].chunk)
  }

  // The slot's record is accurate and its states are what their versions say.
  ghost predicate Ready(m: Mirror, stateOf: (Address, int) -> PoolState) {
    InSync(m) && Faithful(m.states, stateOf)
  }

  ghost predicate Calm(w: Work, cache: Cache) {
    w.Sound(cache) && Quiet(w.mirror, Retained(w.chunk, cache), cache, w.live)
  }

  // A slot that was ready and is not disturbed answers as the main thread would, and is ready again.
  lemma AnswerIsSequential(q: Request, cache: Cache, w: Work, stateOf: (Address, int) -> PoolState)
    requires Ready(w.mirror, stateOf) && Faithful(cache, stateOf) && Calm(w, cache)
    requires RefsAreCached(w.chunk, cache) && KeysTellApart(w.chunk)
    ensures Answer(q, cache)(w) == Sequential(q, cache)(w.chunk)
    ensures Ready(w.After(cache), stateOf)
  {
    hide ChunkPools, Sync, Delta, Quiet, InSync, Evaluated, OnWorker, Serves;
    var retained := Retained(w.chunk, cache);
    SyncIsExact(w.mirror, retained, cache, w.live);
    SyncCopiesCache(w.mirror, retained, cache, w.live, stateOf);
    assert Serves(w.After(cache).states, w.chunk, cache) by { SyncedServes(w.chunk, cache); }
    ChunkRefines(q, cache, w.chunk, w.After(cache).states);
  }

  lemma {:induction false} AnswersAreSequential<W>(
      q: Request, cache: Cache, works: seq<W>, shares: seq<seq<Route>>, answer: W -> seq<Entry<Route>>)
    requires |works| == |shares| && forall i :: 0 <= i < |works| ==> answer(works[i]) == Sequential(q, cache)(shares[i])
    ensures FlatMap(works, answer) == FlatMap(shares, Sequential(q, cache))
  {
    hide Sequential;
    if works != [] {
      AnswersAreSequential(q, cache, works[..|works| - 1], shares[..|works| - 1], answer);
    }
  }

  // Evaluating chunk by chunk keeps the same entries as evaluating all at once.
  lemma {:induction false} EntriesOfChunks(q: Request, cache: Cache, chunks: seq<seq<Route>>)
    ensures var keep := KeepOne(q.quote, cache, q.testAmount, q.optimize, Itself());
            multiset(FlatMap(chunks, Sequential(q, cache))) == multiset(FlatMap(Concat(chunks), keep))
  {
    hide KeepOne;
    var keep := KeepOne(q.quote, cache, q.testAmount, q.optimize, Itself());
    if chunks != [] {
      var rest, last := chunks[..|chunks| - 1], chunks[|chunks| - 1];
      EntriesOfChunks(q, cache, rest);
      StableSortSorts(FlatMap(last, keep), ByProfit());
      FlatMapConcat(Concat(rest), last, keep);
    }
  }

  // The parallel evaluation of a batch is a permutation of the sequential one, sorted by profit, and
  // leaves every slot ready for the next batch.
  lemma ParallelRefinesSequential(
      q: Request, cache: Cache, paths: seq<Route>, workers: nat, works: seq<Work>, stateOf: (Address, int) -> PoolState)
    requires Shares(works) == Chunks(paths, workers)
    requires RefsAreCached(paths, cache) && KeysTellApart(paths) && Faithful(cache, stateOf)
    requires forall w :: w in works ==> Ready(w.mirror, stateOf) && Calm(w, cache)
    ensures multiset(Parallel(q, cache, works)) == multiset(Sequential(q, cache)(paths))
    ensures MostProfitableFirst(Parallel(q, cache, works))
    ensures forall w :: w in works ==> Ready(w.After(cache), stateOf)
  {
    hide Answer, Sequential, Ready, Calm, Work.After, Faithful, RefsAreCached, KeysTellApart, Parallel, Chunks, Apart;
    ChunksShareOut(paths, workers);
    forall w | w in works
      ensures Answer(q, cache)(w) == Sequential(q, cache)(w.chunk) && Ready(w.After(cache), stateOf)
    {
      ChunkOfBatch(paths, works, w, cache);
      AnswerIsSequential(q, cache, w, stateOf);
    }
    MergedParallel(q, cache, paths, works);
  }

  lemma MergedParallel(q: Request, cache: Cache, paths: seq<Route>, works: seq<Work>)
    requires multiset(Concat(Shares(works))) == multiset(paths)
    requires forall w :: w in works ==> Answer(q, cache)(w) == Sequential(q, cache)(w.chunk)
    ensures multiset(Parallel(q, cache, works)) == multiset(Sequential(q, cache)(paths))
    ensures MostProfitableFirst(Parallel(q, cache, works))
  {
    hide Answer, Sequential, Concat, FlatMap, StableSort, MostProfitableFirst;
    MergedAnswers(q, cache, paths, works, Shares(works), Answer(q, cache));
  }

  lemma MergedAnswers<W>(
      q: Request, cache: Cache, paths: seq<Route>, works: seq<W>, shares: seq<seq<Route>>, answer: W -> seq<Entry<Route>>)
    requires multiset(Concat(shares)) == multiset(paths)
    requires |works| == |shares| && forall i :: 0 <= i < |works| ==> answer(works[i]) == Sequential(q, cache)(shares[i])
    ensures multiset(StableSort(FlatMap(works, answer), ByProfit())) == multiset(Sequential(q, cache)(paths))
    ensures MostProfitableFirst(StableSort(FlatMap(works, answer), ByProfit()))
  {
    hide Sequential, Concat, FlatMap, StableSort, SortedBy, MostProfitableFirst, KeepOne;
    SortedIsMostProfitableFirst(StableSort(FlatMap(works, answer), ByProfit()));
    AnswersAreSequential(q, cache, works, shares, answer);
    EntriesOfChunks(q, cache, shares);
    FlatMapPermutes(Concat(shares), paths, KeepOne(q.quote, cache, q.testAmount, q.optimize, Itself()));
    StableSortSorts(FlatMap(works, answer), ByProfit());
    SequentialKeeps(q, cache, paths);
  }

  lemma SequentialKeeps(q: Request, cache: Cache, paths: seq<Route>)
    ensures var keep := KeepOne(q.quote, cache, q.testAmount, q.optimize, Itself());
            multiset(Sequential(q, cache)(paths)) == multiset(FlatMap(paths, keep))
  {
    StableSortSorts(FlatMap(paths, KeepOne(q.quote, cache, q.testAmount, q.optimize, Itself())), ByProfit());
  }

  lemma ChunkOfBatch(paths: seq<Route>, works: seq<Work>, w: Work, cache: Cache)
    requires multiset(Concat(Shares(works))) == multiset(paths) && w in works
    requires RefsAreCached(paths, cache) && KeysTellApart(paths)
    ensures RefsAreCached(w.chunk, cache) && KeysTellApart(w.chunk)
  {
    hide KeyOf;
    var k :| 0 <= k < |works| && works[k] == w;
    ShareOfBatch(paths, Shares(works), k, cache);
  }

  lemma ShareOfBatch(paths: seq<Route>, shares: seq<seq<Route>>, k: nat, cache: Cache)
    requires multiset(Concat(shares)) == multiset(paths) && k < |shares|
    requires RefsAreCached(paths, cache) && KeysTellApart(paths)
    ensures RefsAreCached(shares[k], cache) && KeysTellApart(shares[k])
  {
    hide KeyOf;
    forall r | r in shares[k]
      ensures r in paths
    {
      FlatMapIn(shares, All(), r);
      assert shares[k] in shares && r in All()(shares[k]);
      assert r in multiset(paths);
    }
  }

  // --- Queued jobs ---

  // With too few idle slots, or others waiting already, every chunk is queued with states of its own:
  // what the worker that gets it happens to hold, and what is sent along.
  datatype Errand = Errand(chunk: seq<Route>, held: Cache, sent: Cache)

  function Queued(q: Request): Errand -> seq<Entry<Route>> {
    (e: Errand) => OnWorker(q, e.held + e.sent, e.chunk)
  }

  // With the cached states sent along, the worker serves the chunk exactly when it holds no state for
  // a pool of the chunk that the cache does not have.
  lemma ErrandServes(e: Errand, cache: Cache)
    requires e.sent == Restrict(cache, Retained(e.chunk, cache))
    ensures Serves(e.held + e.sent, e.chunk, cache) <==> e.held.Keys * ChunkPools(e.chunk) <= cache.Keys
  {
    hide ChunkPools;
    var states := e.held + e.sent;
    forall p | p in ChunkPools(e.chunk)
      ensures Holds(states, cache, p) <==> (p in e.held ==> p in cache)
    {
    }
    if Serves(states, e.chunk, cache) {
      assert forall p :: p in e.held.Keys * ChunkPools(e.chunk) ==> p in states;
    }
  }

  // A queued batch is a sorted permutation of the sequential evaluation too, whichever workers get the
  // chunks and whatever else they hold, as long as they hold nothing of the batch the cache has lost.
  lemma QueuedRefinesSequential(q: Request, cache: Cache, paths: seq<Route>, workers: nat, errands: seq<Errand>)
    requires |errands| == |Chunks(paths, workers)|
    requires forall i :: 0 <= i < |errands| ==>
               && errands[i].chunk == Chunks(paths, workers)[i]
               && errands[i].sent == Restrict(cache, Retained(errands[i].chunk, cache))
               && errands[i].held.Keys * ChunkPools(errands[i].chunk) <= cache.Keys
    requires RefsAreCached(paths, cache) && KeysTellApart(paths)
    ensures var all := StableSort(FlatMap(errands, Queued(q)), ByProfit());
            multiset(all) == multiset(Sequential(q, cache)(paths)) && MostProfitableFirst(all)
  {
    hide Chunks, Retained, Restrict, ChunkPools, RefsAreCached, KeysTellApart, OnWorker, Sequential,
         FlatMap, StableSort, MostProfitableFirst, Concat, Serves;
    var chunks := Chunks(paths, workers);
    ChunksShareOut(paths, workers);
    forall i | 0 <= i < |errands|
      ensures Queued(q)(errands[i]) == Sequential(q, cache)(chunks[i])
    {
      ShareOfBatch(paths, chunks, i, cache);
      ErrandServes(errands[i], cache);
      ChunkRefines(q, cache, chunks[i], errands[i].held + errands[i].sent);
    }
    MergedAnswers(q, cache, paths, errands, chunks, Queued(q));
  }

  // --- The code ---

  // Slots and their workers are different objects.
  ghost predicate Separate(slots: seq<WorkerSlot>) {
    forall i, j :: 0 <= i < j < |slots| ==> slots[i] != slots[j] && slots[i].worker != slots[j].worker
  }

  function Workers(slots: seq<WorkerSlot>): set<PersistentWorker> {
    set s | s in slots :: s.worker
  }

  // Chunk i goes to slot i; lives[i] is what the state objects hold when its sync is answered.
  ghost function Assigned(slots: seq<WorkerSlot>, chunks: seq<seq<Route>>, lives: seq<Cache>): (r: seq<Work>)
    requires |chunks| <= |slots| && |chunks| <= |lives|
    reads slots, Workers(slots)
    ensures |r| == |chunks| && Shares(r) == chunks
    ensures forall i :: 0 <= i < |r| ==> r[i] == Work(chunks[i], slots[i].View(), lives[i])
  {
    seq(|chunks|, i requires 0 <= i < |chunks| reads slots, Workers(slots) => Work(chunks[i], slots[i].View(), lives[i]))
  }

  // Synchronise the slot's worker, let it evaluate the plain routes, put the caller's routes back.
  method EvaluateOnSlot(slot: WorkerSlot, q: Request, cache: Cache, chunk: seq<Route>, live: Cache)
    returns (results: seq<Entry<Route>>)
    requires Delta(slot.View(), Retained(chunk, cache), cache) <= live.Keys
    modifies slot, slot.worker
    ensures var work := Work(chunk, old(slot.View()), live);
            slot.View() == work.After(cache) && results == Answer(q, cache)(work)
  {
    hide ChunkPools, Delta, Sync, Evaluated, Rehydrate, ByKey;
    slot.SyncForChunk(chunk, cache, live);
    var raw := EvaluatePaths(q.quote, slot.worker.stateMap, q.testAmount, q.optimize, TheRoute(), SerialiseAll(chunk));
    results := RehydrateEvaluationResults(raw, ByKey(chunk));
  }

  method RehydrateEvaluationResults(results: seq<Entry<SerialPath>>, originals: map<RouteKey, Route>)
    returns (entries: seq<Entry<Route>>)
    ensures entries == Rehydrate(results, originals)
  {
    entries := [];
    for i := 0 to |results|
      invariant entries == Rehydrate(results[..i], originals)
    {
      assert results[..i + 1][..i] == results[..i];
      if results[i].path.key in originals {
        entries := entries + [Entry(originals[results[i].path.key], results[i].result)];
      }
    }
    assert results[..|results|] == results;
  }

  // Every chunk on its slot, the answers merged and sorted again. The slots are independent, so the
  // order in which they answer does not matter.
  method EvaluateChunks(slots: seq<WorkerSlot>, q: Request, cache: Cache, chunks: seq<seq<Route>>, lives: seq<Cache>)
    returns (all: seq<Entry<Route>>)
    requires Separate(slots) && |chunks| <= |slots| && |chunks| <= |lives|
    requires forall w :: w in Assigned(slots, chunks, lives) ==> w.Sound(cache)
    modifies slots, Workers(slots)
    ensures all == Parallel(q, cache, old(Assigned(slots, chunks, lives))) && MostProfitableFirst(all)
    ensures forall i :: 0 <= i < |chunks| ==> slots[i].View() == old(Assigned(slots, chunks, lives))[i].After(cache)
    ensures forall i :: |chunks| <= i < |slots| ==> slots[i].View() == old(slots[i].View())
  {
    hide Answer, Work.After, Work.Sound, StableSort, MostProfitableFirst, WorkerSlot.View, Separate, FlatMap;
    ghost var works := Assigned(slots, chunks, lives);
    all := [];
    FlatMapEnds(works, Answer(q, cache));
    for i := 0 to |chunks|
      invariant all == FlatMap(works[..i], Answer(q, cache))
      invariant forall k :: 0 <= k < i ==> slots[k].View() == works[k].After(cache)
      invariant forall k :: i <= k < |slots| ==> slots[k].View() == old(slots[k].View())
    {
      assert works[i] in works;
      SoundMeans(works[i], cache);
      OthersApart(slots, i);
      var results := EvaluateOnSlot(slots[i], q, cache, chunks[i], lives[i]);
      FlatMapSnoc(works, i, Answer(q, cache));
      all := all + results;
    }
    SortRanks(all);
    all := StableSort(all, ByProfit());
  }

  lemma OthersApart(slots: seq<WorkerSlot>, i: nat)
    requires Separate(slots) && i < |slots|
    ensures forall k :: 0 <= k < |slots| && k != i ==> slots[k] != slots[i] && slots[k].worker != slots[i].worker
  {
  }

  lemma SoundMeans(w: Work, cache: Cache)
    ensures w.Sound(cache) <==> Delta(w.mirror, Retained(w.chunk, cache), cache) <= w.live.Keys
  {
  }

  // What a worker holds after its share of the first i queued jobs.
  function HeldAfter(initial: Cache, w: PersistentWorker, turns: seq<PersistentWorker>, posted: seq<Cache>, i: nat): Cache
    requires i <= |turns| == |posted|
  {
    if i == 0 then initial
    else
      var before := HeldAfter(initial, w, turns, posted, i - 1);
      if turns[i - 1] == w then before + posted[i - 1] else before
  }

  // Chunk i is queued i-th and goes to worker turns[i]; posted[i] is what its state objects hold when
  // it is sent. A worker may get several.
  ghost function Errands(turns: seq<PersistentWorker>, chunks: seq<seq<Route>>, posted: seq<Cache>): (r: seq<Errand>)
    requires |turns| == |chunks| == |posted|
    reads turns
    ensures |r| == |chunks|
    ensures forall i :: 0 <= i < |r| ==>
              r[i] == Errand(chunks[i], HeldAfter(turns[i].stateMap, turns[i], turns, posted, i), posted[i])
  {
    seq(|chunks|, i requires 0 <= i < |chunks| reads turns =>
      Errand(chunks[i], HeldAfter(turns[i].stateMap, turns[i], turns, posted, i), posted[i]))
  }

  // Jobs of a batch add nothing to a worker that the cache does not have.
  lemma {:induction false} HeldKeys(initial: Cache, w: PersistentWorker, turns: seq<PersistentWorker>, posted: seq<Cache>, i: nat, cache: Cache)
    requires i <= |turns| == |posted| && forall k :: 0 <= k < |posted| ==> posted[k].Keys <= cache.Keys
    ensures HeldAfter(initial, w, turns, posted, i).Keys <= initial.Keys + cache.Keys
  {
    if i > 0 {
      HeldKeys(initial, w, turns, posted, i - 1, cache);
    }
  }

  // Every chunk on the worker that gets it, the answers merged and sorted again.
  method EvaluateQueued(turns: seq<PersistentWorker>, q: Request, chunks: seq<seq<Route>>, posted: seq<Cache>)
    returns (all: seq<Entry<Route>>)
    requires |turns| == |chunks| == |posted|
    modifies turns
    ensures all == StableSort(FlatMap(old(Errands(turns, chunks, posted)), Queued(q)), ByProfit())
    ensures MostProfitableFirst(all)
    ensures forall w :: w in turns ==> w.stateMap == HeldAfter(old(w.stateMap), w, turns, posted, |chunks|)
  {
    hide Evaluated, Rehydrate, ByKey, StableSort, MostProfitableFirst, FlatMap;
    ghost var errands := Errands(turns, chunks, posted);
    all := [];
    FlatMapEnds(errands, Queued(q));
    for i := 0 to |chunks|
      invariant all == FlatMap(errands[..i], Queued(q))
      invariant forall w :: w in turns ==> w.stateMap == HeldAfter(old(w.stateMap), w, turns, posted, i)
    {
      var worker := turns[i];
      worker.TakeStates(posted[i]);
      var raw := EvaluatePaths(q.quote, worker.stateMap, q.testAmount, q.optimize, TheRoute(), SerialiseAll(chunks[i]));
      var results := RehydrateEvaluationResults(raw, ByKey(chunks[i]));
      FlatMapSnoc(errands, i, Queued(q));
      all := all + results;
    }
    SortRanks(all);
    all := StableSort(all, ByProfit());
  }

  // A queued batch is sequential, if to begin with no worker holds a pool of the batch the cache lost.
  lemma TurnsRefineSequential(
      q: Request, cache: Cache, paths: seq<Route>, workers: nat, turns: seq<PersistentWorker>, posted: seq<Cache>)
    requires |turns| == |posted| == |Chunks(paths, workers)|
    requires forall i :: 0 <= i < |posted| ==> posted[i] == Restrict(cache, Retained(Chunks(paths, workers)[i], cache))
    requires forall w, chunk :: w in turns && chunk in Chunks(paths, workers) ==>
               w.stateMap.Keys * ChunkPools(chunk) <= cache.Keys
    requires RefsAreCached(paths, cache) && KeysTellApart(paths)
    ensures var all := StableSort(FlatMap(Errands(turns, Chunks(paths, workers), posted), Queued(q)), ByProfit());
            multiset(all) == multiset(Sequential(q, cache)(paths)) && MostProfitableFirst(all)
  {
    hide Chunks, Retained, ChunkPools, RefsAreCached, KeysTellApart, Queued, Sequential, FlatMap, StableSort, MostProfitableFirst;
    var chunks := Chunks(paths, workers);
    var errands := Errands(turns, chunks, posted);
    forall i | 0 <= i < |errands|
      ensures errands[i].held.Keys * ChunkPools(errands[i].chunk) <= cache.Keys
    {
      HeldKeys(turns[i].stateMap, turns[i], turns, posted, i, cache);
      assert turns[i] in turns && chunks[i] in chunks;
      assert turns[i].stateMap.Keys * ChunkPools(chunks[i]) <= cache.Keys;
    }
    QueuedRefinesSequential(q, cache, paths, workers, errands);
  }

  // A batch: on the persistent mirrors when nothing waits and there is an idle slot for every chunk,
  // queued otherwise. Without a slot the main thread evaluates alone; a route without hops has no key,
  // and then the call throws before any worker is asked. The number of jobs already waiting and the
  // order in which workers come free are arguments.
  method Evaluate(slots: seq<WorkerSlot>, idle: seq<WorkerSlot>, waiting: nat, turns: seq<PersistentWorker>,
                  q: Request, cache: Cache, paths: seq<Route>, lives: seq<Cache>, posted: seq<Cache>)
    returns (r: Result<seq<Entry<Route>>>)
    requires Separate(idle) && (forall i :: 0 <= i < |idle| ==> idle[i] in slots) && (forall w :: w in turns ==> w in Workers(slots))
    requires |idle| <= |lives| && |Chunks(paths, |slots|)| == |turns| == |posted|
    requires forall i, chunk :: 0 <= i < |idle| && chunk in Chunks(paths, |slots|) ==>
               Delta(idle[i].View(), Retained(chunk, cache), cache) <= lives[i].Keys
    modifies slots, Workers(slots)
    ensures slots == [] ==> r == Ok(Sequential(q, cache)(paths))
    ensures slots != [] ==> (r.Err? <==> exists p :: p in paths && p.hops == [])
    ensures r.Err? ==> forall s :: s in slots ==> s.View() == old(s.View())
    ensures r.Ok? ==> MostProfitableFirst(r.value)
    ensures slots != [] && r.Ok? && waiting == 0 && |turns| <= |idle| ==>
              var works := old(Assigned(idle, Chunks(paths, |slots|), lives));
              && r.value == Parallel(q, cache, works)
              && forall i :: 0 <= i < |works| ==> idle[i].View() == works[i].After(cache)
    ensures slots != [] && r.Ok? && (0 < waiting || |idle| < |turns|) ==>
              var errands := old(Errands(turns, Chunks(paths, |slots|), posted));
              && r.value == StableSort(FlatMap(errands, Queued(q)), ByProfit())
              && (forall w :: w in turns ==> w.stateMap == HeldAfter(old(w.stateMap), w, turns, posted, |turns|))
              && (forall s :: s in slots ==> s.syncedStateVersions == old(s.syncedStateVersions)
                                             && s.syncedPoolAddresses == old(s.syncedPoolAddresses))
  {
    hide Evaluated, MostProfitableFirst, Chunks, Work.After, Parallel, WorkerSlot.View, Separate, Delta, Errands, StableSort, FlatMap, HeldAfter;
    if |slots| == 0 {
      var profitable := EvaluatePaths(q.quote, cache, q.testAmount, q.optimize, Itself(), paths);
      return Ok(profitable);
    }
    var chunks := BuildEvaluationChunks(paths, |slots|);
    for i := 0 to |paths|
      invariant forall k :: 0 <= k < i ==> paths[k].hops != []
    {
      if |paths[i].hops| == 0 {
        return Err("route identity: edges must be non-empty");
      }
    }
    var all;
    if waiting == 0 && |idle| >= |chunks| {
      assert Workers(idle) <= Workers(slots);
      all := EvaluateChunks(idle, q, cache, chunks, lives);
    } else {
      all := EvaluateQueued(turns, q, chunks, posted);
    }
    r := Ok(all);
  }
}
