/** src/routing/route_cache.ts: the most profitable routes seen, with an index by pool. */
module RouteCache {
  import opened Addresses
  import opened Outcomes
  import opened Sequences
  import opened BoundedPriority

  // Pool addresses are normalised; None stands for one that is not an address.
  datatype Edge = Edge(pool: Option<Address>, tokenIn: Address, tokenOut: Address)
  datatype Path = Path(startToken: Address, edges: seq<Edge>, details: int)
  datatype Key = Key(startToken: Address, edges: seq<Edge>)

  datatype Entry = Entry(path: Path, profit: int) {
    function RouteKey(): Key {
      Key(path.startToken, path.edges)
    }
  }

  // What an evaluation reports; None stands for a profit that is missing or no integer.
  datatype Observation = Observation(path: Path, simulated: Option<int>, assessed: Option<int>)

  predicate HasValidPoolEdges(p: Path) {
    forall e :: e in p.edges ==> e.pool.Some?
  }

  function Reported(o: Observation): Option<int> {
    if o.assessed.Some? then o.assessed else o.simulated
  }

  // The usable observations, in order.
  function IfUsable(): Observation -> seq<Entry> {
    (o: Observation) =>
      if HasValidPoolEdges(o.path) && Reported(o).Some? then [Entry(o.path, Reported(o).value)] else []
  }

  function ToAdd(observed: seq<Observation>): seq<Entry> {
    FlatMap(observed, IfUsable())
  }

  // An observation counts when every pool on its path is an address and it reports a profit; the
  // assessed profit wins over the simulated one.
  predicate Counts(o: Observation) {
    (forall e :: e in o.path.edges ==> e.pool.Some?) && (o.assessed.Some? || o.simulated.Some?)
  }

  predicate IsAdded(o: Observation, e: Entry) {
    e.path == o.path && Some(e.profit) == if o.assessed.Some? then o.assessed else o.simulated
  }

  // Those that count are added, in order.
  lemma ToAddIsWhatCounts(observed: seq<Observation>) returns (from: seq<nat>)
    ensures |from| == |ToAdd(observed)| && forall i, j :: 0 <= i < j < |from| ==> from[i] < from[j]
    ensures forall i :: 0 <= i < |from| ==> from[i] < |observed| && IsAdded(observed[from[i]], ToAdd(observed)[i])
    ensures forall k :: 0 <= k < |observed| ==> (k in from <==> Counts(observed[k]))
  {
    hide Counts, IsAdded, HasValidPoolEdges, Reported, FlatMap;
    from := FlatMapPositions(observed, IfUsable());
    forall o {
      CountsMeans(o);
    }
  }

  lemma CountsMeans(o: Observation)
    ensures Counts(o) <==> HasValidPoolEdges(o.path) && Reported(o).Some?
    ensures Counts(o) ==> IsAdded(o, Entry(o.path, Reported(o).value))
  {
  }

  // Two entries have the same key when they start at the same token and go through the same pools and
  // tokens, whatever else is recorded of them.
  lemma KeysAreRoutes(a: Entry, b: Entry)
    ensures a.RouteKey() == b.RouteKey() <==>
              && a.path.startToken == b.path.startToken && |a.path.edges| == |b.path.edges|
              && forall k :: 0 <= k < |a.path.edges| ==>
                   && a.path.edges[k].pool == b.path.edges[k].pool
                   && a.path.edges[k].tokenIn == b.path.edges[k].tokenIn && a.path.edges[k].tokenOut == b.path.edges[k].tokenOut
  {
    if a.path.startToken == b.path.startToken && |a.path.edges| == |b.path.edges|
       && forall k :: 0 <= k < |a.path.edges| ==>
            && a.path.edges[k].pool == b.path.edges[k].pool
            && a.path.edges[k].tokenIn == b.path.edges[k].tokenIn && a.path.edges[k].tokenOut == b.path.edges[k].tokenOut {
      assert forall k :: 0 <= k < |a.path.edges| ==> a.path.edges[k] == b.path.edges[k];
      assert a.path.edges == b.path.edges;
    }
  }

  // An insertion-ordered map by key: a known key keeps its place and gets the new value.
  function Put(s: seq<Entry>, e: Entry): seq<Entry> {
    if s == [] then [e]
    else if s[0].RouteKey() == e.RouteKey() then [e] + s[1..]
    else [s[0]] + Put(s[1..], e)
  }

  function Latest(s: seq<Entry>): seq<Entry> {
    if s == [] then [] else Put(Latest(s[..|s| - 1]), s[|s| - 1])
  }

  function BestFirst(): Entry -> int {
    (e: Entry) => -e.profit
  }

  function Merged(routes: seq<Entry>, toAdd: seq<Entry>, maxSize: nat): seq<Entry> {
    Take(StableSort(Latest(routes + toAdd), BestFirst()), maxSize)
  }

  // --- Newest observation per key, then the best ---

  predicate KeysDistinct(s: seq<Entry>) {
    forall i, j :: 0 <= i < j < |s| ==> s[i].RouteKey() != s[j].RouteKey()
  }

  lemma {:induction false} PutMembers(s: seq<Entry>, e: Entry)
    requires KeysDistinct(s)
    ensures KeysDistinct(Put(s, e))
    ensures forall x :: x in Put(s, e) <==> x == e || (x in s && x.RouteKey() != e.RouteKey())
  {
    hide Entry.RouteKey;
    if s != [] {
      assert s == [s[0]] + s[1..];
      PutMembers(s[1..], e);
    }
  }

  // e is the last observation of its key.
  ghost predicate Newest(s: seq<Entry>, e: Entry) {
    exists i :: 0 <= i < |s| && s[i] == e && forall j :: i < j < |s| ==> s[j].RouteKey() != e.RouteKey()
  }

  lemma NewestSnoc(s: seq<Entry>, last: Entry, e: Entry)
    ensures Newest(s + [last], e) <==> e == last || (Newest(s, e) && e.RouteKey() != last.RouteKey())
  {
    hide Entry.RouteKey;
    var all := s + [last];
    if e == last {
      assert all[|s|] == e;
    } else {
      if Newest(all, e) {
        var i :| 0 <= i < |all| && all[i] == e && forall j :: i < j < |all| ==> all[j].RouteKey() != e.RouteKey();
        assert i < |s| && s[i] == e;
        assert all[|s|] == last;
        forall j | i < j < |s|
          ensures s[j].RouteKey() != e.RouteKey()
        {
          assert all[j] == s[j];
        }
      }
      if Newest(s, e) && e.RouteKey() != last.RouteKey() {
        var i :| 0 <= i < |s| && s[i] == e && forall j :: i < j < |s| ==> s[j].RouteKey() != e.RouteKey();
        assert all[i] == e;
      }
    }
  }

  // The map holds, for every key, its last observation, and each key once.
  lemma {:induction false} LatestIsNewest(s: seq<Entry>)
    ensures KeysDistinct(Latest(s))
    ensures forall e :: e in Latest(s) <==> Newest(s, e)
  {
    hide Newest, KeysDistinct, Put, Entry.RouteKey;
    if s == [] {
      NothingIsNewest();
    } else {
      var rest, last := s[..|s| - 1], s[|s| - 1];
      LatestIsNewest(rest);
      PutMembers(Latest(rest), last);
      assert s == rest + [last];
      forall e
        ensures e in Latest(s) <==> Newest(s, e)
      {
        NewestSnoc(rest, last, e);
      }
    }
  }

  lemma NothingIsNewest()
    ensures KeysDistinct([]) && forall e :: !Newest([], e)
  {
  }

  lemma PermutationKeepsKeys(s: seq<Entry>, t: seq<Entry>)
    requires KeysDistinct(s) && multiset(s) == multiset(t)
    ensures KeysDistinct(t)
  {
    forall i, j | 0 <= i < j < |t|
      ensures t[i].RouteKey() != t[j].RouteKey()
    {
      assert t[i] in multiset(s) && t[j] in multiset(s);
      if t[i] == t[j] {
        TwiceInMultiset(t, i, j);
        OnceInMultiset(s, t[i]);
        assert false;
      }
    }
  }

  lemma TwiceInMultiset(t: seq<Entry>, i: nat, j: nat)
    requires i < j < |t| && t[i] == t[j]
    ensures multiset(t)[t[i]] >= 2
  {
    assert t == t[..i] + [t[i]] + t[i + 1..j] + [t[j]] + t[j + 1..];
  }

  lemma {:induction false} OnceInMultiset(s: seq<Entry>, e: Entry)
    requires KeysDistinct(s)
    ensures multiset(s)[e] <= 1
  {
    if s != [] {
      var rest, last := s[..|s| - 1], s[|s| - 1];
      OnceInMultiset(rest, e);
      assert s == rest + [last];
      if last == e {
        assert e !in rest;
      }
    }
  }

  // What a merge keeps is the newest observation of its key; keys are distinct and profits sorted; and
  // a newest observation that is left out is no better than anything kept, all places being taken.
  lemma MergeKeepsNewestBest(routes: seq<Entry>, toAdd: seq<Entry>, maxSize: nat)
    ensures var kept := Merged(routes, toAdd, maxSize);
            && |kept| <= maxSize && KeysDistinct(kept) && SortedBy(kept, BestFirst())
            && (forall e :: e in kept ==> Newest(routes + toAdd, e))
            && (forall e :: Newest(routes + toAdd, e) && e !in kept ==>
                  |kept| == maxSize && forall k :: k in kept ==> e.profit <= k.profit)
  {
    hide Newest, Entry.RouteKey;
    var latest := Latest(routes + toAdd);
    var sorted := StableSort(latest, BestFirst());
    LatestIsNewest(routes + toAdd);
    StableSortSorts(latest, BestFirst());
    PermutationKeepsKeys(latest, sorted);
    var kept := Merged(routes, toAdd, maxSize);
    hide StableSort, Latest, KeysDistinct;
    forall e | e in kept
      ensures Newest(routes + toAdd, e)
    {
      assert e in multiset(latest);
    }
    forall e | Newest(routes + toAdd, e) && e !in kept
      ensures |kept| == maxSize && forall k :: k in kept ==> e.profit <= k.profit
    {
      assert e in multiset(sorted);
      LeftOutIsWorse(sorted, maxSize, e);
    }
    KeysOfPrefix(sorted, maxSize);
  }

  lemma ProfitsFall(s: seq<Entry>)
    ensures SortedBy(s, BestFirst()) <==> forall i, j :: 0 <= i < j < |s| ==> s[j].profit <= s[i].profit
  {
  }

  lemma LeftOutIsWorse(sorted: seq<Entry>, n: nat, e: Entry)
    requires SortedBy(sorted, BestFirst()) && e in sorted && e !in Take(sorted, n)
    ensures |Take(sorted, n)| == n && forall k :: k in Take(sorted, n) ==> e.profit <= k.profit
  {
  }

  lemma KeysOfPrefix(s: seq<Entry>, n: nat)
    requires KeysDistinct(s)
    ensures KeysDistinct(Take(s, n))
  {
  }

  // --- Filtering ---

  function Filter(s: seq<Entry>, keep: Entry -> bool): seq<Entry> {
    if s == [] then []
    else Filter(s[..|s| - 1], keep) + (if keep(s[|s| - 1]) then [s[|s| - 1]] else [])
  }

  // Filtering keeps what it should.
  lemma {:induction false} FilterKeeps(s: seq<Entry>, keep: Entry -> bool)
    ensures forall e :: e in Filter(s, keep) <==> e in s && keep(e)
    ensures |Filter(s, keep)| <= |s|
    ensures |Filter(s, keep)| == |s| <==> Filter(s, keep) == s
  {
    if s != [] {
      FilterKeeps(s[..|s| - 1], keep);
      assert s == s[..|s| - 1] + [s[|s| - 1]];
    }
  }

  // What it leaves is still without repetition of keys.
  lemma {:induction false} FilterKeepsKeys(s: seq<Entry>, keep: Entry -> bool)
    requires KeysDistinct(s)
    ensures KeysDistinct(Filter(s, keep))
  {
    if s != [] {
      hide Entry.RouteKey;
      var rest, last := s[..|s| - 1], s[|s| - 1];
      FilterKeepsKeys(rest, keep);
      FilterKeeps(rest, keep);
      var left := Filter(rest, keep);
      forall i | 0 <= i < |left|
        ensures left[i].RouteKey() != last.RouteKey()
      {
        assert left[i] in rest;
      }
    }
  }

  // And still sorted.
  lemma {:induction false} FilterKeepsOrder(s: seq<Entry>, keep: Entry -> bool)
    requires SortedBy(s, BestFirst())
    ensures SortedBy(Filter(s, keep), BestFirst())
  {
    if s != [] {
      var rest, last := s[..|s| - 1], s[|s| - 1];
      FilterKeepsOrder(rest, keep);
      FilterKeeps(rest, keep);
      var left := Filter(rest, keep);
      forall i | 0 <= i < |left|
        ensures BestFirst()(left[i]) <= BestFirst()(last)
      {
        assert left[i] in rest;
      }
    }
  }

  // --- The index ---

  predicate Touches(e: Entry, pool: Address) {
    exists edge :: edge in e.path.edges && edge.pool == Some(pool)
  }

  predicate TouchesAny(e: Entry, pools: set<Address>) {
    exists edge :: edge in e.path.edges && edge.pool.Some? && edge.pool.value in pools
  }

  lemma TouchesGiven(e: Entry, pools: seq<Option<Address>>)
    ensures TouchesAny(e, Given(pools)) <==> exists edge :: edge in e.path.edges && edge.pool.Some? && edge.pool in pools
  {
    if edge :| edge in e.path.edges && edge.pool.Some? && edge.pool in pools {
      assert edge.pool.value in Given(pools);
    }
  }

  // Every pool lists, once each, exactly the positions of the routes that use it.
  predicate Lists(index: map<Address, seq<nat>>, p: Address, i: nat) {
    p in index && i in index[p]
  }

  ghost predicate IndexUpTo(index: map<Address, seq<nat>>, routes: seq<Entry>, n: nat)
    requires n <= |routes|
  {
    && (forall p :: p in index ==> Distinct(index[p]))
    && (forall p, i: nat :: Lists(index, p, i) <==> i < n && Touches(routes[i], p))
  }

  ghost predicate IndexOf(index: map<Address, seq<nat>>, routes: seq<Entry>) {
    IndexUpTo(index, routes, |routes|)
  }

  function AddTo(s: seq<nat>, i: nat): seq<nat> {
    if i in s then s else s + [i]
  }

  // --- The code ---

  function Given(pools: seq<Option<Address>>): set<Address> {
    set p | p in pools && p.Some? :: p.value
  }

  function AllIn(pools: set<Address>): Entry -> bool {
    (e: Entry) => forall edge :: edge in e.path.edges ==> edge.pool.Some? && edge.pool.value in pools
  }

  function NoneIn(pools: set<Address>): Entry -> bool {
    (e: Entry) => forall edge :: edge in e.path.edges ==> edge.pool.Some? && edge.pool.value !in pools
  }

  class Cache {
    const maxSize: nat
    var routes: seq<Entry>
    var poolIndex: map<Address, seq<nat>>

    // The cached routes have different keys, the best come first, there are no more than there is room
    // for, every pool on them is an address, and the index is exact.
    ghost predicate Valid()
      reads this
    {
      && |routes| <= maxSize && KeysDistinct(routes) && SortedBy(routes, BestFirst())
      && (forall e :: e in routes ==> HasValidPoolEdges(e.path))
      && IndexOf(poolIndex, routes)
    }

    constructor (maxSize: nat)
      ensures Valid() && routes == [] && this.maxSize == maxSize
    {
      this.maxSize := maxSize;
      routes, poolIndex := [], map[];
    }

    method RebuildIndex()
      modifies this`poolIndex
      ensures IndexOf(poolIndex, routes)
    {
      poolIndex := map[];
      for i := 0 to |routes|
        invariant IndexUpTo(poolIndex, routes, i)
      {
        poolIndex := IndexRoute(poolIndex, routes, i);
      }
    }

    // Throws on a usable observation without edges, and then changes nothing.
    method Update(observed: seq<Observation>) returns (r: Result<bool>)
      requires Valid()
      modifies this
      ensures Valid()
      ensures r.Err? <==> exists e :: e in ToAdd(observed) && e.path.edges == []
      ensures routes == if r.Err? || ToAdd(observed) == [] then old(routes)
                        else Merged(old(routes), ToAdd(observed), maxSize)
      ensures forall i, j :: 0 <= i < j < |routes| ==> routes[j].profit <= routes[i].profit
    {
      hide IndexOf, StableSort, HasValidPoolEdges, Newest, KeysDistinct, SortedBy, Entry.RouteKey;
      ProfitsFall(routes);
      var toAdd := Usable(observed);
      if |toAdd| == 0 {
        return Ok(false);
      }
      for i := 0 to |toAdd|
        invariant forall k :: 0 <= k < i ==> toAdd[k].path.edges != []
      {
        if |toAdd[i].path.edges| == 0 {
          return Err("route identity: edges must be non-empty");
        }
      }
      var observations := routes + toAdd;
      var latest: seq<Entry> := [];
      for i := 0 to |observations|
        invariant latest == Latest(observations[..i])
      {
        assert observations[..i + 1][..i] == observations[..i];
        latest := Put(latest, observations[i]);
      }
      assert observations[..|observations|] == observations;
      var merged := StableSort(latest, BestFirst());
      MergeKeepsNewestBest(routes, toAdd, maxSize);
      ToAddIsValid(observed);
      MergedIsValid(routes, toAdd, maxSize);
      routes := Take(merged, maxSize);
      ProfitsFall(routes);
      RebuildIndex();
      r := Ok(true);
    }

    // Exactly the cached routes that touch one of the given pools, each once.
    method GetByPools(changedPools: seq<Option<Address>>) returns (found: seq<Entry>)
      requires Valid()
      ensures Distinct(found)
      ensures forall e :: e in found <==>
                e in routes && exists edge :: edge in e.path.edges && edge.pool.Some? && edge.pool in changedPools
    {
      hide KeysDistinct, SortedBy, TouchesAny, HasValidPoolEdges, Given;
      var hits: seq<nat> := [];
      NoHits(routes, changedPools[..0]);
      for i := 0 to |changedPools|
        invariant Distinct(hits) && HitBy(hits, routes, Given(changedPools[..i]))
      {
        ghost var before, pool := hits, changedPools[i];
        if changedPools[i].Some? && changedPools[i].value in poolIndex {
          hits := AddAll(hits, poolIndex[changedPools[i].value]);
        }
        assert changedPools[..i + 1] == changedPools[..i] + [pool];
        GivenSnoc(changedPools[..i], pool);
        if pool.Some? {
          HitMore(before, hits, routes, poolIndex, Given(changedPools[..i]), pool.value);
        } else {
          assert Given(changedPools[..i]) + {} == Given(changedPools[..i]);
        }
      }
      assert changedPools[..|changedPools|] == changedPools;
      HitsAreRoutes(hits, routes, Given(changedPools));
      found := At(routes, hits);
      forall e {
        TouchesGiven(e, changedPools);
      }
    }

    // Drop the routes with a pool that has no state.
    method Prune(statePools: set<Address>)
      requires Valid()
      modifies this
      ensures Valid()
      ensures routes == Filter(old(routes), AllIn(statePools))
      ensures forall e :: e in routes <==>
                e in old(routes)
                && forall edge :: edge in e.path.edges ==> edge.pool.Some? && edge.pool.value in statePools
    {
      hide IndexOf, KeysDistinct, SortedBy, HasValidPoolEdges;
      FilterKeeps(routes, AllIn(statePools));
      FilterKeepsKeys(routes, AllIn(statePools));
      FilterKeepsOrder(routes, AllIn(statePools));
      var before := |routes|;
      routes := Filter(routes, AllIn(statePools));
      if |routes| < before {
        RebuildIndex();
      }
    }

    // Drop the routes that touch one of the pools, and tell how many they were.
    method RemoveByPools(pools: seq<Option<Address>>) returns (removed: nat)
      requires Valid()
      modifies this
      ensures Valid()
      ensures removed == |old(routes)| - |routes|
      ensures forall e :: e in routes <==>
                e in old(routes) && !exists edge :: edge in e.path.edges && edge.pool.Some? && edge.pool in pools
      ensures routes == Filter(old(routes), NoneIn(Given(pools)))
    {
      hide IndexOf, KeysDistinct, SortedBy, HasValidPoolEdges;
      forall e {
        TouchesGiven(e, pools);
      }
      var blocked := Given(pools);
      NoneInMeans(routes, blocked);
      FilterKeeps(routes, NoneIn(blocked));
      FilterKeepsKeys(routes, NoneIn(blocked));
      FilterKeepsOrder(routes, NoneIn(blocked));
      if blocked == {} || |routes| == 0 {
        KeepAll(routes, NoneIn(blocked));
        return 0;
      }
      var before := |routes|;
      routes := Filter(routes, NoneIn(blocked));
      if |routes| < before {
        RebuildIndex();
      }
      removed := before - |routes|;
    }

    method Clear()
      modifies this
      ensures Valid() && routes == []
    {
      routes, poolIndex := [], map[];
    }
  }

  // The first k edges of a route use the pool.
  predicate TouchesWithin(e: Entry, pool: Address, k: nat)
    requires k <= |e.path.edges|
  {
    exists m :: 0 <= m < k && e.path.edges[m].pool == Some(pool)
  }

  lemma TouchesAll(e: Entry, pool: Address)
    ensures TouchesWithin(e, pool, |e.path.edges|) <==> Touches(e, pool)
  {
  }

  lemma TouchesNext(e: Entry, pool: Address, k: nat)
    requires k < |e.path.edges|
    ensures TouchesWithin(e, pool, k + 1) <==> TouchesWithin(e, pool, k) || e.path.edges[k].pool == Some(pool)
  {
  }

  function ListAlso(index: map<Address, seq<nat>>, pool: Address, i: nat): map<Address, seq<nat>> {
    index[pool := AddTo(if pool in index then index[pool] else [], i)]
  }

  lemma ListsAlso(index: map<Address, seq<nat>>, pool: Address, i: nat)
    requires forall p :: p in index ==> Distinct(index[p])
    ensures forall p :: p in ListAlso(index, pool, i) ==> Distinct(ListAlso(index, pool, i)[p])
    ensures forall p, j: nat :: Lists(ListAlso(index, pool, i), p, j) <==> Lists(index, p, j) || (p == pool && j == i)
  {
  }

  // Afterwards route i is in the index too.
  method IndexRoute(index: map<Address, seq<nat>>, routes: seq<Entry>, i: nat) returns (r: map<Address, seq<nat>>)
    requires i < |routes| && IndexUpTo(index, routes, i)
    ensures IndexUpTo(r, routes, i + 1)
  {
    hide Touches, TouchesWithin, Lists, ListAlso;
    r := index;
    var edges := routes[i].path.edges;
    NoneWithin(routes[i]);
    for k := 0 to |edges|
      invariant forall p :: p in r ==> Distinct(r[p])
      invariant forall p, j: nat :: Lists(r, p, j) <==>
                  (j < i && Touches(routes[j], p)) || (j == i && TouchesWithin(routes[i], p, k))
    {
      forall p {
        TouchesNext(routes[i], p, k);
      }
      if edges[k].pool.Some? {
        ListsAlso(r, edges[k].pool.value, i);
        r := ListAlso(r, edges[k].pool.value, i);
      }
    }
    forall p {
      TouchesAll(routes[i], p);
    }
  }

  lemma NoneWithin(e: Entry)
    ensures forall p :: !TouchesWithin(e, p, 0)
  {
  }

  method Usable(observed: seq<Observation>) returns (toAdd: seq<Entry>)
    ensures toAdd == ToAdd(observed)
  {
    hide FlatMap;
    toAdd := [];
    FlatMapEnds(observed, IfUsable());
    for i := 0 to |observed|
      invariant toAdd == FlatMap(observed[..i], IfUsable())
    {
      FlatMapSnoc(observed, i, IfUsable());
      var o := observed[i];
      if HasValidPoolEdges(o.path) && Reported(o).Some? {
        toAdd := toAdd + [Entry(o.path, Reported(o).value)];
      }
    }
  }

  method AddAll(hits: seq<nat>, more: seq<nat>) returns (r: seq<nat>)
    requires Distinct(hits)
    ensures Distinct(r) && forall i :: i in r <==> i in hits || i in more
  {
    r := hits;
    for k := 0 to |more|
      invariant Distinct(r) && forall i :: i in r <==> i in hits || i in more[..k]
    {
      assert more[..k + 1] == more[..k] + [more[k]];
      r := AddTo(r, more[k]);
    }
    assert more[..|more|] == more;
  }

  // The positions of the routes that touch one of the pools.
  ghost predicate HitBy(hits: seq<nat>, routes: seq<Entry>, pools: set<Address>) {
    forall i: nat :: i in hits <==> i < |routes| && TouchesAny(routes[i], pools)
  }

  function At(routes: seq<Entry>, hits: seq<nat>): (r: seq<Entry>)
    requires forall k :: 0 <= k < |hits| ==> hits[k] < |routes|
    ensures |r| == |hits| && forall i :: 0 <= i < |r| ==> r[i] == routes[hits[i]]
  {
    seq(|hits|, i requires 0 <= i < |hits| => routes[hits[i]])
  }

  lemma NoHits(routes: seq<Entry>, pools: seq<Option<Address>>)
    requires pools == []
    ensures HitBy([], routes, Given(pools))
  {
  }

  lemma HitsAreRoutes(hits: seq<nat>, routes: seq<Entry>, pools: set<Address>)
    requires Distinct(hits) && KeysDistinct(routes) && HitBy(hits, routes, pools)
    ensures forall k :: 0 <= k < |hits| ==> hits[k] < |routes|
    ensures Distinct(At(routes, hits))
    ensures forall e :: e in At(routes, hits) <==> e in routes && TouchesAny(e, pools)
  {
    hide TouchesAny;
    assert forall k :: 0 <= k < |hits| ==> hits[k] in hits;
    var found := At(routes, hits);
    forall i, j | 0 <= i < j < |found|
      ensures found[i] != found[j]
    {
      assert hits[i] != hits[j];
      SameKeySamePlace(routes, hits[i], hits[j]);
    }
    forall e | e in routes && TouchesAny(e, pools)
      ensures e in found
    {
      var k :| 0 <= k < |routes| && routes[k] == e;
      assert k in hits;
      var i :| 0 <= i < |hits| && hits[i] == k;
      assert found[i] == e;
    }
  }

  lemma SameKeySamePlace(routes: seq<Entry>, i: nat, j: nat)
    requires KeysDistinct(routes) && i < |routes| && j < |routes| && i != j
    ensures routes[i] != routes[j]
  {
  }

  lemma GivenSnoc(pools: seq<Option<Address>>, p: Option<Address>)
    ensures Given(pools + [p]) == Given(pools) + (if p.Some? then {p.value} else {})
  {
  }

  lemma HitMore(hits: seq<nat>, more: seq<nat>, routes: seq<Entry>, index: map<Address, seq<nat>>, pools: set<Address>, p: Address)
    requires IndexOf(index, routes) && HitBy(hits, routes, pools)
    requires forall i :: i in more <==> i in hits || (p in index && i in index[p])
    ensures HitBy(more, routes, pools + {p})
  {
    forall i: nat
      ensures i in more <==> i < |routes| && TouchesAny(routes[i], pools + {p})
    {
      assert Lists(index, p, i) <==> i < |routes| && Touches(routes[i], p);
      if i < |routes| {
        TouchesMore(routes[i], pools, p);
      }
    }
  }

  lemma TouchesMore(e: Entry, pools: set<Address>, p: Address)
    ensures TouchesAny(e, pools + {p}) <==> TouchesAny(e, pools) || Touches(e, p)
  {
  }

  lemma ToAddIsValid(observed: seq<Observation>)
    ensures forall e :: e in ToAdd(observed) ==> HasValidPoolEdges(e.path)
  {
    hide HasValidPoolEdges;
    forall e | e in ToAdd(observed)
      ensures HasValidPoolEdges(e.path)
    {
      FlatMapIn(observed, IfUsable(), e);
    }
  }

  lemma MergedIsValid(routes: seq<Entry>, toAdd: seq<Entry>, maxSize: nat)
    requires forall e :: e in routes + toAdd ==> HasValidPoolEdges(e.path)
    ensures forall e :: e in Merged(routes, toAdd, maxSize) ==> HasValidPoolEdges(e.path)
  {
    hide Merged, HasValidPoolEdges;
    MergeKeepsNewestBest(routes, toAdd, maxSize);
    forall e | e in Merged(routes, toAdd, maxSize)
      ensures e in routes + toAdd
    {
    }
  }

  lemma NoneInMeans(routes: seq<Entry>, pools: set<Address>)
    requires forall e :: e in routes ==> HasValidPoolEdges(e.path)
    ensures forall e :: e in routes ==> (NoneIn(pools)(e) <==> !TouchesAny(e, pools))
  {
  }

  lemma {:induction false} KeepAll(s: seq<Entry>, keep: Entry -> bool)
    requires forall e :: e in s ==> keep(e)
    ensures Filter(s, keep) == s
  {
    if s != [] {
      KeepAll(s[..|s| - 1], keep);
    }
  }
}
