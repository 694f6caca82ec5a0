/** Any history of pool updates leaves the graph a rebuild from the latest snapshots would give. */
module GraphReplay {
  import opened Addresses
  import opened Outcomes
  import opened RoutingGraph

  // A pool record seen (no address when it is malformed), or a pool taken out.
  datatype Event = Upsert(address: Option<Address>, snapshot: seq<EdgeView>) | Remove(pool: Address)

  predicate WellFormed(events: seq<Event>) {
    forall ev :: ev in events && ev.Upsert? && ev.address.Some? ==> IsSnapshot(ev.address.value, ev.snapshot)
  }

  function Apply(c: map<Address, set<EdgeView>>, ev: Event): map<Address, set<EdgeView>> {
    match ev
    case Upsert(None, _) => c
    case Upsert(Some(pool), snapshot) => Upserted(c, pool, snapshot)
    case Remove(pool) => c - {pool}
  }

  function Fold(events: seq<Event>): map<Address, set<EdgeView>> {
    if events == [] then map[] else Apply(Fold(events[..|events| - 1]), events[|events| - 1])
  }

  // The last snapshot of a pool, empty if it was never seen or last removed.
  function Latest(events: seq<Event>, pool: Address): seq<EdgeView> {
    if events == [] then []
    else
      var rest := events[..|events| - 1];
      match events[|events| - 1]
      case Upsert(None, _) => Latest(rest, pool)
      case Upsert(Some(p), snapshot) => if p == pool then snapshot else Latest(rest, pool)
      case Remove(p) => if p == pool then [] else Latest(rest, pool)
  }

  // The incremental contents hold exactly the pools whose latest snapshot has edges, with those edges.
  lemma {:induction false} FoldIsLatest(events: seq<Event>, pool: Address)
    ensures pool in Fold(events) <==> Latest(events, pool) != []
    ensures pool in Fold(events) ==> Fold(events)[pool] == Elements(Latest(events, pool))
  {
    if events != [] {
      FoldIsLatest(events[..|events| - 1], pool);
    }
  }

  // A rebuild: one upsert per pool, with its latest snapshot.
  function Rebuild(pools: seq<Address>, events: seq<Event>): seq<Event> {
    if pools == [] then []
    else Rebuild(pools[..|pools| - 1], events) + [Upsert(Some(pools[|pools| - 1]), Latest(events, pools[|pools| - 1]))]
  }

  lemma {:induction false} RebuildLatest(pools: seq<Address>, events: seq<Event>, pool: Address)
    ensures Latest(Rebuild(pools, events), pool) == if pool in pools then Latest(events, pool) else []
  {
    if pools != [] {
      var rest := pools[..|pools| - 1];
      RebuildLatest(rest, events, pool);
      var all := Rebuild(pools, events);
      assert all[..|all| - 1] == Rebuild(rest, events);
      assert pool in pools <==> pool in rest || pool == pools[|pools| - 1];
    }
  }

  // Rebuilding from the latest snapshots, in any order of the pools, gives the incremental contents.
  lemma RebuildIsFold(pools: seq<Address>, events: seq<Event>)
    requires forall p :: p in Fold(events) ==> p in pools
    ensures Fold(Rebuild(pools, events)) == Fold(events)
  {
    var rebuilt, folded := Fold(Rebuild(pools, events)), Fold(events);
    forall p
      ensures p in rebuilt <==> p in folded
      ensures p in rebuilt ==> rebuilt[p] == folded[p]
    {
      FoldIsLatest(events, p);
      FoldIsLatest(Rebuild(pools, events), p);
      RebuildLatest(pools, events, p);
    }
  }

  // The graph itself follows the fold over every event.
  method Replay(events: seq<Event>) returns (g: Graph)
    requires WellFormed(events)
    ensures fresh(g) && g.Valid() && g.Contents() == Fold(events)
  {
    hide Consistent, EdgesOf, Elements;
    g := new Graph();
    for i := 0 to |events|
      invariant fresh(g) && fresh(g.Edges()) && g.Valid()
      invariant g.Contents() == Fold(events[..i])
    {
      assert events[..i + 1][..i] == events[..i];
      assert events[i] in events;
      match events[i]
      case Upsert(pool, snapshot) =>
        var _ := g.UpsertPool(pool, snapshot);
      case Remove(pool) =>
        var _ := g.RemovePool(pool);
    }
    assert events[..|events|] == events;
  }

  // --- buildGraph ---

  // A pool record as the builder sees it: no address when it is not routable, the edges it gives
  // whether or not its state is known, and whether it is. Registry records differ in address.
  datatype Record = Record(address: Option<Address>, edges: seq<EdgeView>, hasState: bool)

  predicate Registry(records: seq<Record>) {
    && (forall r :: r in records && r.address.Some? ==> IsSnapshot(r.address.value, r.edges))
    && (forall i, j :: 0 <= i < j < |records| && records[i].address.Some? ==> records[i].address != records[j].address)
  }

  function Built(records: seq<Record>): map<Address, set<EdgeView>> {
    if records == [] then map[]
    else
      var rest, r := Built(records[..|records| - 1]), records[|records| - 1];
      if r.address.None? || r.edges == [] then rest else rest[r.address.value := Elements(r.edges)]
  }

  lemma {:induction false} BuiltIsEveryRecord(records: seq<Record>)
    requires Registry(records)
    ensures forall p :: p in Built(records) <==> exists r :: r in records && r.address == Some(p) && r.edges != []
    ensures forall r :: r in records && r.address.Some? && r.edges != [] ==>
              r.address.value in Built(records) && Built(records)[r.address.value] == Elements(r.edges)
  {
    hide IsSnapshot, Elements;
    if records != [] {
      var rest, last := records[..|records| - 1], records[|records| - 1];
      BuiltIsEveryRecord(rest);
      assert forall r :: r in records <==> r in rest || r == last;
    }
  }

  method BuildGraph(records: seq<Record>) returns (g: Graph)
    requires Registry(records)
    ensures fresh(g) && g.Valid() && g.Contents() == Built(records)
  {
    hide Consistent, EdgesOf, Elements, IsSnapshot;
    g := new Graph();
    for i := 0 to |records|
      invariant fresh(g) && fresh(g.Edges()) && g.Valid()
      invariant g.Contents() == Built(records[..i])
    {
      assert records[..i + 1][..i] == records[..i];
      assert records[i] in records;
      match records[i]
      case Record(Some(pool), edges, _) =>
        assert pool !in g.Contents() by { NotYetBuilt(records, i); }
        if edges != [] {
          g.AddSnapshot(pool, edges);
        }
      case _ =>
    }
    assert records[..|records|] == records;
  }

  lemma NotYetBuilt(records: seq<Record>, i: nat)
    requires Registry(records) && i < |records| && records[i].address.Some?
    ensures records[i].address.value !in Built(records[..i])
  {
    hide IsSnapshot;
    var before := records[..i];
    assert Registry(before) by { assert forall r :: r in before ==> r in records; }
    BuiltIsEveryRecord(before);
  }

  // The records stand for where a history of updates has led: a record with state has the latest
  // snapshot, one without counts as empty there, and every pool of the graph has its record.
  predicate Describes(records: seq<Record>, events: seq<Event>) {
    && (forall r :: r in records && r.address.Some? ==>
          Latest(events, r.address.value) == if r.hasState then r.edges else [])
    && (forall p :: p in Fold(events) ==> exists r :: r in records && r.address == Some(p))
  }

  // The builder adds edges for pools without state, which an update leaves out: the graph built from
  // scratch has the incremental contents if and only if every record that gives edges has state.
  lemma BuildGraphAgrees(records: seq<Record>, events: seq<Event>)
    requires Registry(records) && Describes(records, events)
    ensures Built(records) == Fold(events)
            <==> forall r :: r in records && r.address.Some? && r.edges != [] ==> r.hasState
  {
    hide Registry, Elements;
    BuiltIsEveryRecord(records);
    forall p
      ensures p in Fold(events) <==> Latest(events, p) != []
      ensures p in Fold(events) ==> Fold(events)[p] == Elements(Latest(events, p))
    {
      FoldIsLatest(events, p);
    }
    hide Fold, Latest;
  }

  // --- Equal contents mean equal indexes ---

  lemma SameEdge(g: Graph, h: Graph, e: Edge)
    requires g.Valid() && h.Valid() && g.Contents() == h.Contents() && e in g.Edges()
    ensures exists f :: f in h.Edges() && f.View() == e.View()
  {
    assert e.pool in g.Contents() && e.pool in h.Contents();
    assert e.View() in g.Contents()[e.pool];
    assert e.View() in Views(h.edgesByPool[e.pool]);
    var f :| f in h.edgesByPool[e.pool] && f.View() == e.View();
    assert f in h.Edges();
  }

  // Everything the first graph indexes, the second one does too.
  lemma Covers(g: Graph, h: Graph)
    requires g.Valid() && h.Valid() && g.Contents() == h.Contents()
    ensures g.tokens <= h.tokens
    ensures g.edgeByPoolRoute.Keys <= h.edgeByPoolRoute.Keys
    ensures forall k :: k in g.edgeByPoolRoute ==> h.edgeByPoolRoute[k].View() == g.edgeByPoolRoute[k].View()
    ensures g.adjacency.Keys <= h.adjacency.Keys
    ensures forall t :: t in g.adjacency ==> Views(g.adjacency[t]) <= Views(h.adjacency[t])
  {
    forall t | t in g.tokens
      ensures t in h.tokens
    {
      var e :| e in g.Edges() && (t == e.signature.tokenIn || t == e.signature.tokenOut);
      SameEdge(g, h, e);
    }
    forall k | k in g.edgeByPoolRoute
      ensures k in h.edgeByPoolRoute && h.edgeByPoolRoute[k].View() == g.edgeByPoolRoute[k].View()
    {
      SameEdge(g, h, g.edgeByPoolRoute[k]);
      var f :| f in h.Edges() && f.View() == g.edgeByPoolRoute[k].View();
      assert f.Key() == k;
    }
    forall t, e | t in g.adjacency && e in g.adjacency[t]
      ensures t in h.adjacency && e.View() in Views(h.adjacency[t])
    {
      SameEdge(g, h, e);
      var f :| f in h.Edges() && f.View() == e.View();
      assert f in h.adjacency[t];
    }
    forall t | t in g.adjacency
      ensures t in h.adjacency
    {
      assert g.adjacency[t][0] in g.adjacency[t];
    }
  }

  lemma {:induction false} RoutesCount(edges: set<Edge>, byRoute: map<Route, Edge>)
    requires forall e :: e in edges ==> e.Key() in byRoute && byRoute[e.Key()] == e
    ensures |Keys(edges)| == |edges|
  {
    if edges != {} {
      var e :| e in edges;
      RoutesCount(edges - {e}, byRoute);
      assert Keys(edges) == Keys(edges - {e}) + {e.Key()};
      assert e.Key() !in Keys(edges - {e});
    }
  }

  lemma EdgeCountIsRoutes(g: Graph)
    requires g.Valid()
    ensures g.edgeCount == |g.edgeByPoolRoute.Keys|
  {
    RoutesCount(g.Edges(), g.edgeByPoolRoute);
    assert Keys(g.Edges()) == g.edgeByPoolRoute.Keys;
  }

  // Two graphs with the same contents agree in all five structures, up to the order of edges: the
  // incremental graph is indistinguishable from the rebuilt one.
  lemma GraphsAgree(g: Graph, h: Graph)
    requires g.Valid() && h.Valid() && g.Contents() == h.Contents()
    ensures g.tokens == h.tokens && g.edgeCount == h.edgeCount
    ensures g.edgesByPool.Keys == h.edgesByPool.Keys
    ensures forall p :: p in g.edgesByPool ==> Views(g.edgesByPool[p]) == Views(h.edgesByPool[p])
    ensures g.edgeByPoolRoute.Keys == h.edgeByPoolRoute.Keys
    ensures forall k :: k in g.edgeByPoolRoute ==> g.edgeByPoolRoute[k].View() == h.edgeByPoolRoute[k].View()
    ensures g.adjacency.Keys == h.adjacency.Keys
    ensures forall t :: t in g.adjacency ==> Views(g.adjacency[t]) == Views(h.adjacency[t])
  {
    hide Consistent, EdgesOf;
    Covers(g, h);
    Covers(h, g);
    assert g.tokens == h.tokens && g.edgeByPoolRoute.Keys == h.edgeByPoolRoute.Keys;
    EdgeCountIsRoutes(g);
    EdgeCountIsRoutes(h);
    forall p | p in g.edgesByPool
      ensures Views(g.edgesByPool[p]) == Views(h.edgesByPool[p])
    {
      assert g.Contents()[p] == h.Contents()[p];
    }
  }
}
