/** src/routing/worker_pool.ts and persistent_worker.ts: a worker's copy of the pool states, kept by deltas. */
module WorkerMirror {
  import opened Addresses
  import opened Sequences
  import opened Simulator

  // --- The protocol on values ---

  // What the main thread believes (versions, pools) and what the worker holds (states).
  datatype Mirror = Mirror(versions: map<Address, int>, pools: set<Address>, states: Cache)

  const EMPTY := Mirror(map[], {}, map[])

  function Members(pools: seq<Address>): set<Address> {
    set p | p in pools
  }

  ghost function HopPools(hops: seq<Hop>): set<Address> {
    set h | h in hops :: h.leg.pool
  }

  ghost function ChunkPools(routes: seq<Route>): set<Address> {
    set r, h | r in routes && h in r.hops :: h.leg.pool
  }

  ghost function Retained(routes: seq<Route>, cache: Cache): set<Address> {
    ChunkPools(routes) * cache.Keys
  }

  // The pools whose cached version is not the one recorded for the worker.
  ghost function Delta(m: Mirror, retained: set<Address>, cache: Cache): set<Address>
    requires retained <= cache.Keys
  {
    set p | p in retained && !(p in m.versions && m.versions[p] == cache[p].version)
  }

  function Restrict<V>(m: map<Address, V>, keys: set<Address>): map<Address, V> {
    map p | p in m && p in keys :: m[p]
  }

  function Recorded(versions: map<Address, int>, delta: set<Address>, live: Cache): map<Address, int>
    requires delta <= live.Keys
  {
    versions + map p | p in delta :: live[p].version
  }

  // One synchronisation for a chunk that retains these pools. The states are copied when the message
  // is posted; the versions are read from the same state objects only after the worker has answered,
  // when `live` is what those objects hold.
  ghost function Sync(m: Mirror, retained: set<Address>, cache: Cache, live: Cache): Mirror
    requires retained <= cache.Keys && Delta(m, retained, cache) <= live.Keys
  {
    var delta := Delta(m, retained, cache);
    if delta == {} && m.pools == retained then m
    else Mirror(Restrict(Recorded(m.versions, delta, live), retained), retained,
                Restrict(m.states + Restrict(cache, delta), retained))
  }

  // The record is accurate: it names exactly the pools the worker holds, at the versions it holds.
  predicate InSync(m: Mirror) {
    && m.pools == m.versions.Keys == m.states.Keys
    && forall p :: p in m.states ==> m.versions[p] == m.states[p].version
  }

  // No state object of the delta changed its version while the worker was answering.
  ghost predicate Quiet(m: Mirror, retained: set<Address>, cache: Cache, live: Cache)
    requires retained <= cache.Keys && Delta(m, retained, cache) <= live.Keys
  {
    forall p :: p in Delta(m, retained, cache) ==> live[p].version == cache[p].version
  }

  // What one pool looks like afterwards: sent if its version was not on record, kept otherwise.
  lemma SyncOfPool(m: Mirror, retained: set<Address>, cache: Cache, live: Cache, p: Address)
    requires retained <= cache.Keys && Delta(m, retained, cache) <= live.Keys && InSync(m)
    ensures var e := Sync(m, retained, cache, live);
            if p !in retained then p !in e.states && p !in e.versions
            else if p in Delta(m, retained, cache) then
              p in e.states && p in e.versions && e.states[p] == cache[p] && e.versions[p] == live[p].version
            else
              && p in e.states && p in e.versions && p in m.states
              && e.states[p] == m.states[p] && e.versions[p] == m.versions[p] == cache[p].version
  {
  }

  // From an accurate record, one synchronisation leaves the worker exactly the retained pools, each at
  // the cached version. The record stays accurate if and only if no state object in the delta moved to
  // another version before the answer came.
  lemma SyncIsExact(m: Mirror, retained: set<Address>, cache: Cache, live: Cache)
    requires retained <= cache.Keys && Delta(m, retained, cache) <= live.Keys && InSync(m)
    ensures var e := Sync(m, retained, cache, live);
            && e.states.Keys == e.pools == retained
            && (forall p :: p in e.states ==> e.states[p].version == cache[p].version)
            && (InSync(e) <==> Quiet(m, retained, cache, live))
  {
    var e := Sync(m, retained, cache, live);
    assert e.pools == retained;
    hide Sync, Delta;
    forall p {
      SyncOfPool(m, retained, cache, live, p);
    }
    assert e.states.Keys == retained && e.versions.Keys == retained;
  }

  // A version determines the state of a pool.
  ghost predicate Faithful(states: Cache, stateOf: (Address, int) -> PoolState) {
    forall p :: p in states ==> states[p] == stateOf(p, states[p].version)
  }

  // When versions determine states, the worker holds the cached states themselves.
  lemma SyncCopiesCache(m: Mirror, retained: set<Address>, cache: Cache, live: Cache, stateOf: (Address, int) -> PoolState)
    requires retained <= cache.Keys && Delta(m, retained, cache) <= live.Keys && InSync(m)
    requires Faithful(m.states, stateOf) && Faithful(cache, stateOf)
    ensures Sync(m, retained, cache, live).states == Restrict(cache, retained)
  {
    hide Sync, Delta, InSync, Quiet;
    SyncIsExact(m, retained, cache, live);
    var e := Sync(m, retained, cache, live);
    forall p | p in e.states
      ensures e.states[p] == cache[p]
    {
      SyncOfPool(m, retained, cache, live, p);
    }
  }

  // One evaluation a slot is used for.
  datatype Job = Job(routes: seq<Route>, cache: Cache, live: Cache) {
    ghost function Pools(): set<Address> {
      Retained(routes, cache)
    }
  }

  ghost predicate QuietJob(m: Mirror, j: Job) {
    Delta(m, j.Pools(), j.cache) <= j.live.Keys && Quiet(m, j.Pools(), j.cache, j.live)
  }

  ghost predicate QuietRun(m: Mirror, jobs: seq<Job>)
    decreases |jobs|
  {
    jobs != [] ==> QuietJob(m, jobs[0]) && QuietRun(Sync(m, jobs[0].Pools(), jobs[0].cache, jobs[0].live), jobs[1..])
  }

  ghost function RunJobs(m: Mirror, jobs: seq<Job>): Mirror
    requires QuietRun(m, jobs)
    decreases |jobs|
  {
    if jobs == [] then m else RunJobs(Sync(m, jobs[0].Pools(), jobs[0].cache, jobs[0].live), jobs[1..])
  }

  // Over any sequence of evaluations, whatever the caches in between, the last one found the worker
  // holding exactly what its chunk needs from its own cache.
  lemma {:induction false} EveryJobSeesItsCache(m: Mirror, jobs: seq<Job>, stateOf: (Address, int) -> PoolState)
    requires QuietRun(m, jobs) && InSync(m) && Faithful(m.states, stateOf)
    requires forall j :: j in jobs ==> Faithful(j.cache, stateOf)
    ensures var e := RunJobs(m, jobs);
            && InSync(e) && Faithful(e.states, stateOf)
            && (jobs != [] ==> var last := jobs[|jobs| - 1]; e.states == Restrict(last.cache, last.Pools()))
    decreases |jobs|
  {
    hide Sync, Delta, Quiet, InSync, ChunkPools;
    if jobs != [] {
      var j := jobs[0];
      SyncIsExact(m, j.Pools(), j.cache, j.live);
      SyncCopiesCache(m, j.Pools(), j.cache, j.live, stateOf);
      EveryJobSeesItsCache(Sync(m, j.Pools(), j.cache, j.live), jobs[1..], stateOf);
    }
  }

  // What an update in place during the answer does: the main thread records the new version, later
  // deltas leave the pool out, and the worker goes on with the old state.
  lemma ChangeDuringSyncIsMissed(pool: Address, before: PoolState, after: PoolState)
    requires before.version != after.version
    ensures var m := Sync(EMPTY, {pool}, map[pool := before], map[pool := after]);
            && InSync(EMPTY) && !InSync(m)
            && Delta(m, {pool}, map[pool := after]) == {}
            && Sync(m, {pool}, map[pool := after], map[pool := after]).states == map[pool := before]
  {
    assert Delta(EMPTY, {pool}, map[pool := before]) == {pool};
    var m := Sync(EMPTY, {pool}, map[pool := before], map[pool := after]);
    assert m.versions == map[pool := after.version] && m.states == map[pool := before];
  }

  // A queued job brings its own states and leaves the record alone.
  ghost function Visited(m: Mirror, sent: Cache): Mirror {
    m.(states := m.states + sent)
  }

  // So the record stays accurate exactly when it already had every pool sent at the version sent.
  lemma VisitOutdatesRecord(m: Mirror, sent: Cache)
    requires InSync(m)
    ensures InSync(Visited(m, sent))
            <==> forall p :: p in sent ==> p in m.versions && m.versions[p] == sent[p].version
  {
    var e := Visited(m, sent);
    if InSync(e) {
      forall p | p in sent
        ensures p in m.versions && m.versions[p] == sent[p].version
      {
        assert p in e.states && p in e.versions.Keys;
      }
    }
    if forall p :: p in sent ==> p in m.versions && m.versions[p] == sent[p].version {
      assert e.states.Keys == m.states.Keys;
    }
  }

  // A pool such a job brought and the cache has lost since: the next synchronisation has nothing to
  // send, and the worker goes on with a state the main thread no longer has.
  lemma VisitorStays(kept: Address, lost: Address, a: PoolState, b: PoolState)
    requires kept != lost
    ensures var before := Sync(EMPTY, {kept}, map[kept := a], map[kept := a]);
            var m := Visited(before, map[kept := a, lost := b]);
            && InSync(before) && Delta(m, {kept}, map[kept := a]) == {}
            && Sync(m, {kept}, map[kept := a], map[kept := a]).states == map[kept := a, lost := b]
  {
    assert Delta(EMPTY, {kept}, map[kept := a]) == {kept};
    var before := Sync(EMPTY, {kept}, map[kept := a], map[kept := a]);
    assert before == Mirror(map[kept := a.version], {kept}, map[kept := a]);
    assert map[kept := a] + map[kept := a, lost := b] == map[kept := a, lost := b];
  }

  // --- The code ---

  // The worker thread's side.
  class PersistentWorker {
    var stateMap: Cache

    constructor ()
      ensures stateMap == map[]
    {
      stateMap := map[];
    }

    // SYNC_STATE: take over the sent states, then drop every pool that is not retained.
    method SyncState(stateObj: Cache, retainPools: seq<Address>)
      modifies this
      ensures stateMap == Restrict(old(stateMap) + stateObj, Members(retainPools))
    {
      stateMap := stateMap + stateObj;
      stateMap := map p | p in stateMap && p in retainPools :: stateMap[p];
    }

    // EVALUATE with states of its own: take them over, and drop nothing.
    method TakeStates(stateObj: Cache)
      modifies this
      ensures stateMap == old(stateMap) + stateObj
    {
      stateMap := stateMap + stateObj;
    }
  }

  // The main thread's side of one worker.
  class WorkerSlot {
    const worker: PersistentWorker
    var syncedStateVersions: map<Address, int>
    var syncedPoolAddresses: set<Address>

    constructor ()
      ensures fresh(worker) && View() == EMPTY
    {
      worker := new PersistentWorker();
      syncedStateVersions, syncedPoolAddresses := map[], {};
    }

    function View(): Mirror
      reads this, worker
    {
      Mirror(syncedStateVersions, syncedPoolAddresses, worker.stateMap)
    }

    // Bring the worker up to date with the chunk's pools; `live` is what the state objects hold when
    // the worker has answered.
    method SyncForChunk(routes: seq<Route>, cache: Cache, live: Cache)
      requires Delta(View(), Retained(routes, cache), cache) <= live.Keys
      modifies this, worker
      ensures View() == Sync(old(View()), Retained(routes, cache), cache, live)
    {
      hide Distinct, SamePoolAddressSet, Retained, Recorded, Restrict, Delta;
      var retainPools := CollectChunkPoolState(routes, cache);
      ghost var retained := Retained(routes, cache);
      InRetained(retainPools, routes, cache);
      var delta, count := BuildStateDelta(retainPools, cache);
      var poolMembershipChanged := !SamePoolAddressSet(syncedPoolAddresses, retainPools);
      SameMembers(syncedPoolAddresses, retainPools);
      if count > 0 || poolMembershipChanged {
        worker.SyncState(delta, retainPools);
        syncedStateVersions := Recorded(syncedStateVersions, delta.Keys, live);
        syncedStateVersions := Restrict(syncedStateVersions, Members(retainPools));
        syncedPoolAddresses := Members(retainPools);
      }
    }

    // The chunk pools that must be sent, with their states.
    method BuildStateDelta(retainPools: seq<Address>, cache: Cache) returns (delta: Cache, count: nat)
      requires Distinct(retainPools) && Members(retainPools) <= cache.Keys
      ensures delta.Keys == Delta(View(), Members(retainPools), cache)
      ensures delta == Restrict(cache, delta.Keys)
      ensures count > 0 <==> delta.Keys != {}
    {
      hide Distinct;
      delta, count := map[], 0;
      InList(retainPools, Members(retainPools));
      for i := 0 to |retainPools|
        invariant forall p :: p in delta <==>
                    p in retainPools[..i] && !(p in syncedStateVersions && syncedStateVersions[p] == cache[p].version)
        invariant forall p :: p in delta ==> delta[p] == cache[p]
        invariant count > 0 <==> delta.Keys != {}
      {
        var p := retainPools[i];
        assert retainPools[..i + 1] == retainPools[..i] + [p];
        if !(p in syncedStateVersions && syncedStateVersions[p] == cache[p].version) {
          delta := delta[p := cache[p]];
          count := count + 1;
          assert p in delta.Keys;
        }
      }
      assert retainPools[..|retainPools|] == retainPools;
    }
  }

  lemma InRetained(pools: seq<Address>, routes: seq<Route>, cache: Cache)
    requires Members(pools) == Retained(routes, cache)
    ensures Retained(routes, cache) <= cache.Keys
    ensures forall p :: p in pools <==> p in Retained(routes, cache)
  {
  }

  lemma InList(pools: seq<Address>, members: set<Address>)
    requires Members(pools) == members
    ensures forall p :: p in pools <==> p in members
  {
  }

  predicate SamePoolAddressSet(left: set<Address>, right: seq<Address>) {
    |left| == |right| && forall p :: p in right ==> p in left
  }

  // For a list without repetition the size-and-membership test is set equality.
  lemma SameMembers(left: set<Address>, right: seq<Address>)
    requires Distinct(right)
    ensures SamePoolAddressSet(left, right) <==> left == Members(right)
  {
    var members := Members(right);
    DistinctSize(right);
    if SamePoolAddressSet(left, right) {
      SubsetOfSameSize(members, left);
    }
  }

  lemma {:induction false} DistinctSize(s: seq<Address>)
    requires Distinct(s)
    ensures |Members(s)| == |s|
  {
    if s != [] {
      DistinctSize(s[1..]);
      assert Members(s) == {s[0]} + Members(s[1..]);
    }
  }

  lemma SubsetOfSameSize(a: set<Address>, b: set<Address>)
    requires a <= b && |a| == |b|
    ensures a == b
  {
    assert b == a + (b - a);
    assert |b - a| == 0;
  }

  // The chunk's pools that have cached state, each once, in order of first use.
  method CollectChunkPoolState(routes: seq<Route>, cache: Cache) returns (statePools: seq<Address>)
    ensures Distinct(statePools) && Members(statePools) == Retained(routes, cache)
  {
    statePools := [];
    var seen: set<Address> := {};
    for i := 0 to |routes|
      invariant seen == ChunkPools(routes[..i])
      invariant Distinct(statePools) && Members(statePools) == seen * cache.Keys
    {
      var hops := routes[i].hops;
      ghost var done := seen;
      for k := 0 to |hops|
        invariant seen == done + HopPools(hops[..k])
        invariant Distinct(statePools) && Members(statePools) == seen * cache.Keys
      {
        var pool := hops[k].leg.pool;
        assert hops[..k + 1] == hops[..k] + [hops[k]];
        if pool !in seen {
          assert pool !in Members(statePools);
          seen := seen + {pool};
          if pool in cache {
            assert Members(statePools + [pool]) == Members(statePools) + {pool};
            statePools := statePools + [pool];
          }
        }
      }
      assert hops[..|hops|] == hops;
      assert routes[..i + 1] == routes[..i] + [routes[i]];
      assert ChunkPools(routes[..i + 1]) == ChunkPools(routes[..i]) + HopPools(hops);
    }
    assert routes[..|routes|] == routes;
  }
}
