/** src/routing/graph.ts: the token graph, kept incrementally in five structures. */
module RoutingGraph {
  import opened Addresses
  import opened Outcomes
  import opened Sequences

  // Identity of a live pool-state object, and the protocol-specific extras of an edge.
  type StateRef = nat
  type Metadata = map<string, string>

  // Everything the topology comparison looks at.
  datatype Signature = Signature(
    protocol: string, tokenIn: Address, tokenOut: Address, tokenInIdx: nat, tokenOutIdx: nat,
    zeroForOne: bool, fee: Option<int>, swapFeeBps: Option<int>, feeDenominator: Option<int>, feeBps: int)

  // An edge as a value; the swap function reference is not part of it.
  datatype EdgeView = EdgeView(pool: Address, signature: Signature, stateRef: StateRef, metadata: Metadata)

  datatype Route = Route(pool: Address, tokenIn: Address, tokenOut: Address)

  function ViewRoute(v: EdgeView): Route {
    Route(v.pool, v.signature.tokenIn, v.signature.tokenOut)
  }

  // One edge object, shared by the three indexes; only its state and metadata are ever updated.
  class Edge {
    const pool: Address
    const signature: Signature
    var stateRef: StateRef
    var metadata: Metadata

    constructor (v: EdgeView)
      ensures View() == v
    {
      pool, signature, stateRef, metadata := v.pool, v.signature, v.stateRef, v.metadata;
    }

    function View(): EdgeView
      reads this
    {
      EdgeView(pool, signature, stateRef, metadata)
    }

    function Key(): Route {
      Route(pool, signature.tokenIn, signature.tokenOut)
    }
  }

  // What buildPoolEdgeSnapshot yields: edges of one pool, one per ordered token pair.
  predicate IsSnapshot(pool: Address, edges: seq<EdgeView>) {
    && (forall v :: v in edges ==> v.pool == pool)
    && (forall i, j :: 0 <= i < j < |edges| ==> ViewRoute(edges[i]) != ViewRoute(edges[j]))
  }

  // What routing needs to know about a pool; fee and metadata may depend on the pair of tokens. Token
  // lists hold no token twice: they are cleaned when they are parsed.
  datatype PoolContext = PoolContext(
    pool: Address, protocol: string, tokens: seq<Address>, stateRef: StateRef, metadataOf: (nat, nat) -> Metadata,
    swapFeeBps: Option<int>, feeDenominator: Option<int>,
    feeOf: (Address, Address) -> Option<int>, feeBpsOf: Option<int> -> int)

  function EdgeFor(c: PoolContext, i: nat, j: nat): EdgeView
    requires i < |c.tokens| && j < |c.tokens|
  {
    var fee := c.feeOf(c.tokens[i], c.tokens[j]);
    EdgeView(c.pool,
             Signature(c.protocol, c.tokens[i], c.tokens[j], i, j, i < j, fee, c.swapFeeBps, c.feeDenominator, c.feeBpsOf(fee)),
             c.stateRef, c.metadataOf(i, j))
  }

  // An edge of the pool, read off the edge itself: its tokens are those at its two positions, it goes
  // zero for one exactly when it goes up the list, and everything else is the pool's for that pair.
  predicate IsEdgeOf(c: PoolContext, v: EdgeView) {
    var e := v.signature;
    && v.pool == c.pool && v.stateRef == c.stateRef
    && e.tokenInIdx < |c.tokens| && e.tokenOutIdx < |c.tokens| && e.tokenInIdx != e.tokenOutIdx
    && c.tokens[e.tokenInIdx] == e.tokenIn && c.tokens[e.tokenOutIdx] == e.tokenOut
    && (e.zeroForOne <==> e.tokenInIdx < e.tokenOutIdx)
    && e.protocol == c.protocol && e.fee == c.feeOf(e.tokenIn, e.tokenOut) && e.feeBps == c.feeBpsOf(e.fee)
    && e.swapFeeBps == c.swapFeeBps && e.feeDenominator == c.feeDenominator
    && v.metadata == c.metadataOf(e.tokenInIdx, e.tokenOutIdx)
  }

  predicate IsBetween(v: EdgeView, i: int, j: int) {
    v.signature.tokenInIdx == i && v.signature.tokenOutIdx == j
  }

  ghost predicate Connects(edges: set<EdgeView>, i: int, j: int) {
    exists v :: v in edges && IsBetween(v, i, j)
  }

  // All edges of the pool: exactly one for every ordered pair of positions, and no others.
  ghost predicate AreEdgesOf(c: PoolContext, edges: set<EdgeView>) {
    && (forall v :: v in edges ==> IsEdgeOf(c, v))
    && (forall i, j :: 0 <= i < |c.tokens| && 0 <= j < |c.tokens| && i != j ==> Connects(edges, i, j))
    && (forall v, w :: v in edges && w in edges && IsBetween(w, v.signature.tokenInIdx, v.signature.tokenOutIdx) ==> v == w)
  }

  // A routable pool with state gives its edges, others none.
  method BuildPoolEdgeSnapshot(context: Option<PoolContext>) returns (edges: seq<EdgeView>)
    requires context.Some? ==> Distinct(context.value.tokens)
    ensures context.None? ==> edges == []
    ensures context.Some? ==> IsSnapshot(context.value.pool, edges) && AreEdgesOf(context.value, Elements(edges))
    ensures context.Some? && 2 <= |context.value.tokens| ==> edges != []
  {
    edges := [];
    if context.None? {
      return;
    }
    edges := OrderedPairs(context.value);
    AllPairsDone(context.value, edges);
    if 2 <= |context.value.tokens| {
      assert EdgeFor(context.value, 0, 1) in edges;
    }
  }

  method OrderedPairs(c: PoolContext) returns (edges: seq<EdgeView>)
    requires Distinct(c.tokens)
    ensures PairsDone(c, edges, |c.tokens|, 0)
  {
    hide PairsDone, EdgeFor, Distinct;
    edges := [];
    NoPairsDone(c);
    for i := 0 to |c.tokens|
      invariant PairsDone(c, edges, i, 0)
    {
      for j := 0 to |c.tokens|
        invariant PairsDone(c, edges, i, j)
      {
        NextPairDone(c, edges, i, j);
        if i != j {
          edges := edges + [EdgeFor(c, i, j)];
        }
      }
      RowDone(c, edges, i);
    }
  }

  // The pairs the double loop has passed on reaching (i, j).
  predicate Passed(a: int, b: int, i: int, j: int) {
    a != b && (a < i || (a == i && b < j))
  }

  ghost predicate PairsDone(c: PoolContext, edges: seq<EdgeView>, i: int, j: int) {
    var n := |c.tokens|;
    && IsSnapshot(c.pool, edges)
    && (forall a, b :: 0 <= a < n && 0 <= b < n && Passed(a, b, i, j) ==> EdgeFor(c, a, b) in edges)
    && (forall v :: v in edges ==> exists a, b :: 0 <= a < n && 0 <= b < n && Passed(a, b, i, j) && v == EdgeFor(c, a, b))
  }

  lemma NoPairsDone(c: PoolContext)
    ensures PairsDone(c, [], 0, 0)
  {
  }

  lemma RowDone(c: PoolContext, edges: seq<EdgeView>, i: nat)
    requires PairsDone(c, edges, i, |c.tokens|)
    ensures PairsDone(c, edges, i + 1, 0)
  {
  }

  lemma NextPairDone(c: PoolContext, edges: seq<EdgeView>, i: nat, j: nat)
    requires Distinct(c.tokens) && i < |c.tokens| && j < |c.tokens| && PairsDone(c, edges, i, j)
    ensures PairsDone(c, if i != j then edges + [EdgeFor(c, i, j)] else edges, i, j + 1)
  {
    var e := EdgeFor(c, i, j);
    assert e.pool == c.pool;
    if i != j {
      PairIsNew(c, edges, i, j);
    }
    hide EdgeFor, Distinct;
    assert forall a, b :: Passed(a, b, i, j + 1) <==> Passed(a, b, i, j) || (a == i && b == j && i != j);
  }

  lemma AllPairsDone(c: PoolContext, edges: seq<EdgeView>)
    requires PairsDone(c, edges, |c.tokens|, 0)
    ensures IsSnapshot(c.pool, edges) && AreEdgesOf(c, Elements(edges))
    ensures forall i, j :: 0 <= i < |c.tokens| && 0 <= j < |c.tokens| && i != j ==> EdgeFor(c, i, j) in edges
  {
    var n := |c.tokens|;
    forall v | v in edges
      ensures IsEdgeOf(c, v) && v == EdgeFor(c, v.signature.tokenInIdx, v.signature.tokenOutIdx)
    {
    }
    forall i, j | 0 <= i < n && 0 <= j < n && i != j
      ensures EdgeFor(c, i, j) in edges && Connects(Elements(edges), i, j)
    {
      assert Passed(i, j, n, 0);
      assert EdgeFor(c, i, j) in Elements(edges) && IsBetween(EdgeFor(c, i, j), i, j);
    }
  }

  lemma PairIsNew(c: PoolContext, edges: seq<EdgeView>, i: nat, j: nat)
    requires Distinct(c.tokens) && i < |c.tokens| && j < |c.tokens| && PairsDone(c, edges, i, j)
    ensures forall v :: v in edges ==> ViewRoute(v) != ViewRoute(EdgeFor(c, i, j))
  {
  }

  function Signatures(edges: seq<EdgeView>): seq<Signature> {
    seq(|edges|, i requires 0 <= i < |edges| => edges[i].signature)
  }

  function EdgeSignatures(edges: seq<Edge>): seq<Signature> {
    seq(|edges|, i requires 0 <= i < |edges| => edges[i].signature)
  }

  // The code sorts both signature lists and compares them entry by entry.
  predicate SamePoolTopology(left: seq<Edge>, right: seq<EdgeView>) {
    multiset(EdgeSignatures(left)) == multiset(Signatures(right))
  }

  // The sequence without the given edges, in order.
  function Without(s: seq<Edge>, removed: set<Edge>): (r: seq<Edge>)
    ensures forall e :: e in r ==> e in s && e !in removed
    ensures forall e :: e in s && e !in removed ==> e in r
    ensures Distinct(s) ==> Distinct(r)
  {
    if s == [] then []
    else if s[0] in removed then Without(s[1..], removed)
    else
      var rest := Without(s[1..], removed);
      assert Distinct(s) ==> Distinct(s[1..]);
      [s[0]] + rest
  }

  lemma {:induction false} WithoutTwice(s: seq<Edge>, a: set<Edge>, b: set<Edge>)
    ensures Without(Without(s, a), b) == Without(s, a + b)
  {
    if s != [] {
      WithoutTwice(s[1..], a, b);
      var rest := Without(s[1..], a);
      assert s[0] !in a ==> ([s[0]] + rest)[1..] == rest;
    }
  }

  lemma {:induction false} WithoutNone(s: seq<Edge>)
    ensures Without(s, {}) == s
  {
    if s != [] {
      WithoutNone(s[1..]);
    }
  }

  function Elements<T(==)>(s: seq<T>): set<T> {
    set x | x in s
  }

  ghost function Keys(edges: set<Edge>): set<Route> {
    set e | e in edges :: e.Key()
  }

  lemma {:induction false} DistinctCount<T>(s: seq<T>)
    requires Distinct(s)
    ensures |Elements(s)| == |s|
  {
    if s != [] {
      DistinctCount(s[1..]);
      assert Elements(s) == {s[0]} + Elements(s[1..]);
    }
  }

  // --- What each index promises about a set of edges ---

  ghost function EdgesOf(byPool: map<Address, seq<Edge>>): set<Edge> {
    set p, e | p in byPool && e in byPool[p] :: e
  }

  ghost predicate PoolsOk(byPool: map<Address, seq<Edge>>) {
    forall p :: p in byPool ==>
      byPool[p] != [] && Distinct(byPool[p]) && forall e :: e in byPool[p] ==> e.pool == p
  }

  ghost predicate AdjacencyOk(adjacency: map<Address, seq<Edge>>, edges: set<Edge>) {
    && (forall t :: t in adjacency ==>
          adjacency[t] != [] && Distinct(adjacency[t])
          && forall e :: e in adjacency[t] ==> e.signature.tokenIn == t && e in edges)
    && (forall e :: e in edges ==> e.signature.tokenIn in adjacency && e in adjacency[e.signature.tokenIn])
  }

  ghost predicate RoutesOk(byRoute: map<Route, Edge>, edges: set<Edge>) {
    && (forall k :: k in byRoute ==> byRoute[k] in edges && byRoute[k].Key() == k)
    && (forall e :: e in edges ==> e.Key() in byRoute && byRoute[e.Key()] == e)
  }

  // The end points of the edges.
  ghost function EndPoints(edges: set<Edge>): set<Address> {
    (set e | e in edges :: e.signature.tokenIn) + (set e | e in edges :: e.signature.tokenOut)
  }

  // All five structures describe the same set of edges.
  ghost predicate Consistent(adjacency: map<Address, seq<Edge>>, tokens: set<Address>, edgeCount: int,
                             byPool: map<Address, seq<Edge>>, byRoute: map<Route, Edge>)
  {
    var edges := EdgesOf(byPool);
    && PoolsOk(byPool) && AdjacencyOk(adjacency, edges) && RoutesOk(byRoute, edges)
    && tokens == EndPoints(edges) && edgeCount == |edges|
  }

  // --- Adding one edge to each index ---

  function Appended(m: map<Address, seq<Edge>>, key: Address, e: Edge): map<Address, seq<Edge>> {
    m[key := (if key in m then m[key] else []) + [e]]
  }

  lemma AddToPools(byPool: map<Address, seq<Edge>>, e: Edge)
    requires PoolsOk(byPool) && e !in EdgesOf(byPool)
    ensures PoolsOk(Appended(byPool, e.pool, e))
    ensures EdgesOf(Appended(byPool, e.pool, e)) == EdgesOf(byPool) + {e}
  {
    var after := Appended(byPool, e.pool, e);
    assert e.pool in byPool ==> forall x :: x in byPool[e.pool] ==> x in EdgesOf(byPool);
    assert e in after[e.pool];
    forall x | x in EdgesOf(byPool)
      ensures x in EdgesOf(after)
    {
      assert x in byPool[x.pool] && x in after[x.pool];
    }
  }

  lemma AddToAdjacency(adjacency: map<Address, seq<Edge>>, edges: set<Edge>, e: Edge)
    requires AdjacencyOk(adjacency, edges) && e !in edges
    ensures AdjacencyOk(Appended(adjacency, e.signature.tokenIn, e), edges + {e})
  {
    var t := e.signature.tokenIn;
    assert t in adjacency ==> forall x :: x in adjacency[t] ==> x in edges;
  }

  lemma AddToRoutes(byRoute: map<Route, Edge>, edges: set<Edge>, e: Edge)
    requires RoutesOk(byRoute, edges) && e !in edges && e.Key() !in byRoute
    ensures RoutesOk(byRoute[e.Key() := e], edges + {e})
  {
  }

  lemma AddToTokens(edges: set<Edge>, e: Edge)
    ensures EndPoints(edges + {e}) == EndPoints(edges) + {e.signature.tokenIn, e.signature.tokenOut}
  {
  }

  lemma AddKeepsConsistent(adjacency: map<Address, seq<Edge>>, tokens: set<Address>, edgeCount: int,
                           byPool: map<Address, seq<Edge>>, byRoute: map<Route, Edge>, e: Edge)
    requires Consistent(adjacency, tokens, edgeCount, byPool, byRoute)
    requires e !in EdgesOf(byPool) && e.Key() !in byRoute
    ensures Consistent(Appended(adjacency, e.signature.tokenIn, e), tokens + {e.signature.tokenIn, e.signature.tokenOut},
                       edgeCount + 1, Appended(byPool, e.pool, e), byRoute[e.Key() := e])
    ensures EdgesOf(Appended(byPool, e.pool, e)) == EdgesOf(byPool) + {e}
  {
    hide PoolsOk, AdjacencyOk, RoutesOk, EndPoints, EdgesOf, Appended;
    AddToPools(byPool, e);
    AddToAdjacency(adjacency, EdgesOf(byPool), e);
    AddToRoutes(byRoute, EdgesOf(byPool), e);
    AddToTokens(EdgesOf(byPool), e);
  }

  lemma NoEndPoints()
    ensures EndPoints({}) == {}
  {
  }

  // --- Taking a pool's edges out of each index ---

  function Pruned(adjacency: map<Address, seq<Edge>>, removed: set<Edge>): map<Address, seq<Edge>> {
    map t | t in adjacency && Without(adjacency[t], removed) != [] :: Without(adjacency[t], removed)
  }

  lemma PrunedIsAdjacency(adjacency: map<Address, seq<Edge>>, edges: set<Edge>, removed: set<Edge>)
    requires AdjacencyOk(adjacency, edges)
    ensures AdjacencyOk(Pruned(adjacency, removed), edges - removed)
  {
  }

  // Filtering one token's list is pruning one edge from the whole map.
  lemma PruneOneMore(adjacency: map<Address, seq<Edge>>, edges: set<Edge>, removed: set<Edge>, e: Edge)
    requires AdjacencyOk(adjacency, edges) && e in edges && e !in removed
    ensures e.signature.tokenIn in Pruned(adjacency, removed)
    ensures Pruned(adjacency, removed + {e}) == Filtered(Pruned(adjacency, removed), e)
  {
    var pruned, filtered := Pruned(adjacency, removed + {e}), Filtered(Pruned(adjacency, removed), e);
    forall u
      ensures u in pruned <==> u in filtered
      ensures u in pruned ==> pruned[u] == filtered[u]
    {
      PruneAt(adjacency, edges, removed, e, u);
    }
    PruneAt(adjacency, edges, removed, e, e.signature.tokenIn);
    hide Pruned, Filtered, AdjacencyOk;
    assert pruned == filtered;
  }

  lemma PruneAt(adjacency: map<Address, seq<Edge>>, edges: set<Edge>, removed: set<Edge>, e: Edge, u: Address)
    requires AdjacencyOk(adjacency, edges) && e in edges && e !in removed
    ensures var pruned, filtered := Pruned(adjacency, removed + {e}), Filtered(Pruned(adjacency, removed), e);
            (u in pruned <==> u in filtered) && (u in pruned ==> pruned[u] == filtered[u])
    ensures e.signature.tokenIn in Pruned(adjacency, removed)
  {
    assert e in Without(adjacency[e.signature.tokenIn], removed);
    if u in adjacency {
      WithoutTwice(adjacency[u], removed, {e});
      if u != e.signature.tokenIn {
        OtherTokenKeeps(adjacency[u], removed, e);
      }
    }
  }

  lemma OtherTokenKeeps(s: seq<Edge>, removed: set<Edge>, e: Edge)
    requires e !in s
    ensures Without(s, removed + {e}) == Without(s, removed)
  {
    WithoutAbsent(Without(s, removed), e);
    WithoutTwice(s, removed, {e});
  }

  // One edge filtered out of its token's list; an emptied list goes away.
  function Filtered(adjacency: map<Address, seq<Edge>>, e: Edge): map<Address, seq<Edge>> {
    var t := e.signature.tokenIn;
    var next := Without(if t in adjacency then adjacency[t] else [], {e});
    if next != [] then adjacency[t := next] else adjacency - {t}
  }

  lemma {:induction false} WithoutAbsent(s: seq<Edge>, e: Edge)
    requires e !in s
    ensures Without(s, {e}) == s
  {
    if s != [] {
      WithoutAbsent(s[1..], e);
    }
  }

  lemma RemoveFromPools(byPool: map<Address, seq<Edge>>, pool: Address)
    requires PoolsOk(byPool) && pool in byPool
    ensures PoolsOk(byPool - {pool})
    ensures EdgesOf(byPool - {pool}) == EdgesOf(byPool) - Elements(byPool[pool])
    ensures Elements(byPool[pool]) <= EdgesOf(byPool)
    ensures |EdgesOf(byPool - {pool})| == |EdgesOf(byPool)| - |byPool[pool]|
  {
    var gone := Elements(byPool[pool]);
    var after := byPool - {pool};
    forall x | x in EdgesOf(byPool) - gone
      ensures x in EdgesOf(after)
    {
      assert x in byPool[x.pool] && x in after[x.pool];
    }
    DistinctCount(byPool[pool]);
    assert EdgesOf(byPool) == EdgesOf(after) + gone;
  }

  datatype Change = Added | Removed | Updated | Unchanged | Skipped

  class Graph {
    var adjacency: map<Address, seq<Edge>>
    var tokens: set<Address>
    var edgeCount: int
    var edgesByPool: map<Address, seq<Edge>>
    var edgeByPoolRoute: map<Route, Edge>

    constructor ()
      ensures Valid() && Contents() == map[] && Edges() == {}
    {
      adjacency, tokens, edgeCount, edgesByPool, edgeByPoolRoute := map[], {}, 0, map[], map[];
    }

    ghost function Edges(): set<Edge>
      reads this
    {
      EdgesOf(edgesByPool)
    }

    ghost predicate Valid()
      reads this
    {
      Consistent(adjacency, tokens, edgeCount, edgesByPool, edgeByPoolRoute)
    }

    // What the graph stands for: each pool's set of edges, by value.
    ghost function Contents(): (c: map<Address, set<EdgeView>>)
      reads this, Edges()
      ensures c.Keys == edgesByPool.Keys
    {
      map p | p in edgesByPool :: (PoolInEdges(edgesByPool, p); Views(edgesByPool[p]))
    }

    method AddEdge(edge: Edge)
      requires Valid() && edge !in Edges() && edge.Key() !in edgeByPoolRoute
      modifies this
      ensures Valid() && Edges() == old(Edges()) + {edge}
      ensures edgesByPool == Appended(old(edgesByPool), edge.pool, edge)
      ensures edgeByPoolRoute == old(edgeByPoolRoute)[edge.Key() := edge]
    {
      hide Consistent, EdgesOf, Appended;
      AddKeepsConsistent(adjacency, tokens, edgeCount, edgesByPool, edgeByPoolRoute, edge);
      adjacency := Appended(adjacency, edge.signature.tokenIn, edge);
      tokens := tokens + {edge.signature.tokenIn, edge.signature.tokenOut};
      edgeCount := edgeCount + 1;
      edgesByPool := Appended(edgesByPool, edge.pool, edge);
      edgeByPoolRoute := edgeByPoolRoute[edge.Key() := edge];
    }

    function GetEdges(token: Address): seq<Edge>
      reads this
    {
      if token in adjacency then adjacency[token] else []
    }

    // Some edge the adjacency lists starts or ends at the token.
    predicate TokenHasReferences(token: Address, ghost all: set<Edge>)
      requires AdjacencyOk(adjacency, all)
      reads this
      ensures TokenHasReferences(token, all) <==> token in EndPoints(all)
    {
      ReferencedIsEndPoint(adjacency, all, token);
      || GetEdges(token) != []
      || exists t | t in adjacency :: exists e | e in adjacency[t] :: e.signature.tokenOut == token
    }

    method DropFromAdjacency(edges: seq<Edge>, ghost all: set<Edge>)
      requires AdjacencyOk(adjacency, all) && Distinct(edges) && Elements(edges) <= all
      modifies this`adjacency, this`edgeCount
      ensures adjacency == Pruned(old(adjacency), Elements(edges))
      ensures edgeCount == old(edgeCount) - |edges|
    {
      hide Pruned, AdjacencyOk, Filtered;
      PruneNothing(adjacency, all);
      assert Elements(edges[..0]) == {};
      for i := 0 to |edges|
        invariant adjacency == Pruned(old(adjacency), Elements(edges[..i]))
        invariant edgeCount == old(edgeCount) - i
      {
        var edge := edges[i];
        assert edge !in edges[..i];
        PruneOneMore(old(adjacency), all, Elements(edges[..i]), edge);
        assert Elements(edges[..i + 1]) == Elements(edges[..i]) + {edge};
        adjacency := Filtered(adjacency, edge);
        edgeCount := edgeCount - 1;
      }
      assert edges[..|edges|] == edges;
    }

    method DropRoutes(edges: seq<Edge>)
      modifies this`edgeByPoolRoute
      ensures edgeByPoolRoute == old(edgeByPoolRoute) - Keys(Elements(edges))
    {
      for i := 0 to |edges|
        invariant edgeByPoolRoute == old(edgeByPoolRoute) - Keys(Elements(edges[..i]))
      {
        edgeByPoolRoute := edgeByPoolRoute - {edges[i].Key()};
        assert Elements(edges[..i + 1]) == Elements(edges[..i]) + {edges[i]};
        assert Keys(Elements(edges[..i + 1])) == Keys(Elements(edges[..i])) + {edges[i].Key()};
      }
      assert edges[..|edges|] == edges;
    }

    // Forget the end points of the edges unless the adjacency, which lists all those left, still
    // mentions them.
    method DropTokens(edges: seq<Edge>, ghost all: set<Edge>)
      requires AdjacencyOk(adjacency, all)
      modifies this`tokens
      ensures tokens == old(tokens) - (EndPoints(Elements(edges)) - EndPoints(all))
    {
      hide EndPoints, AdjacencyOk;
      assert Elements(edges[..0]) == {};
      assert EndPoints({}) == {} by { NoEndPoints(); }
      for i := 0 to |edges|
        invariant tokens == old(tokens) - (EndPoints(Elements(edges[..i])) - EndPoints(all))
      {
        var edge := edges[i];
        if !TokenHasReferences(edge.signature.tokenIn, all) {
          tokens := tokens - {edge.signature.tokenIn};
        }
        if !TokenHasReferences(edge.signature.tokenOut, all) {
          tokens := tokens - {edge.signature.tokenOut};
        }
        assert Elements(edges[..i + 1]) == Elements(edges[..i]) + {edge};
        AddToTokens(Elements(edges[..i]), edge);
      }
      assert edges[..|edges|] == edges;
    }

    method RemovePool(pool: Address) returns (count: nat)
      requires Valid()
      modifies this
      ensures Valid()
      ensures count == if pool in old(edgesByPool) then |old(edgesByPool)[pool]| else 0
      ensures edgesByPool == old(edgesByPool) - {pool}
      ensures Contents() == old(Contents()) - {pool}
      ensures Edges() <= old(Edges())
    {
      hide Consistent, Pruned, EdgesOf, EndPoints, AdjacencyOk;
      if pool !in edgesByPool {
        assert edgesByPool - {pool} == edgesByPool;
        return 0;
      }
      var edges := edgesByPool[pool];
      RemoveKeepsConsistent(adjacency, tokens, edgeCount, edgesByPool, edgeByPoolRoute, pool);
      FewerEdges(edgesByPool, pool);
      ghost var left := Edges() - Elements(edges);
      DropFromAdjacency(edges, Edges());
      edgesByPool := edgesByPool - {pool};
      DropRoutes(edges);
      DropTokens(edges, left);
      count := |edges|;
    }

    function GetPoolEdge(route: Route): Option<Edge>
      reads this
    {
      if route in edgeByPoolRoute then Some(edgeByPoolRoute[route]) else None
    }

    // Fresh edge objects for every edge of the snapshot.
    method AddSnapshot(pool: Address, snapshot: seq<EdgeView>)
      requires Valid() && pool !in edgesByPool && IsSnapshot(pool, snapshot) && snapshot != []
      modifies this
      ensures Valid() && pool in edgesByPool && edgesByPool == old(edgesByPool)[pool := edgesByPool[pool]]
      ensures |edgesByPool[pool]| == |snapshot|
      ensures forall e :: e in Edges() ==> e in old(Edges()) || fresh(e)
      ensures Contents() == old(Contents())[pool := Elements(snapshot)]
    {
      hide Consistent, EdgesOf;
      ghost var list: seq<Edge> := [];
      for i := 0 to |snapshot|
        invariant Valid() && |list| == i
        invariant edgesByPool == if i == 0 then old(edgesByPool) else old(edgesByPool)[pool := list]
        invariant forall j :: 0 <= j < i ==> fresh(list[j]) && list[j].View() == snapshot[j]
        invariant forall e :: e in Edges() ==> e in old(Edges()) || fresh(e)
      {
        var edge := new Edge(snapshot[i]);
        FreshRoute(adjacency, tokens, edgeCount, edgesByPool, edgeByPoolRoute, pool, list, edge);
        AddEdge(edge);
        list := list + [edge];
      }
      assert Views(list) == Elements(snapshot) by {
        forall v | v in snapshot
          ensures exists e :: e in list && e.View() == v
        {
          var i :| 0 <= i < |snapshot| && snapshot[i] == v;
          assert list[i] in list;
        }
      }
    }

    // Same topology: keep the edge objects and give each its new state and metadata.
    method RefreshEdges(pool: Address, snapshot: seq<EdgeView>)
      requires Valid() && pool in edgesByPool && IsSnapshot(pool, snapshot)
      requires SamePoolTopology(edgesByPool[pool], snapshot)
      modifies edgesByPool[pool]
      ensures unchanged(this)
      ensures Contents() == old(Contents())[pool := Elements(snapshot)]
    {
      hide Consistent, SamePoolTopology, EdgesOf;
      ghost var list := edgesByPool[pool];
      MatchingEdges(adjacency, tokens, edgeCount, edgesByPool, edgeByPoolRoute, pool, snapshot);
      for i := 0 to |snapshot|
        invariant forall j :: 0 <= j < i ==> edgeByPoolRoute[ViewRoute(snapshot[j])].View() == snapshot[j]
      {
        var current := GetPoolEdge(ViewRoute(snapshot[i]));
        if current.Some? {
          current.value.stateRef := snapshot[i].stateRef;
          current.value.metadata := snapshot[i].metadata;
        }
      }
      RefreshedViews(list, edgeByPoolRoute, snapshot);
      forall p | p in edgesByPool && p != pool
        ensures Views(edgesByPool[p]) == old(Views(edgesByPool[p]))
      {
        OthersApart(adjacency, tokens, edgeCount, edgesByPool, edgeByPoolRoute, p, pool);
      }
    }

    method UpsertPool(pool: Option<Address>, snapshot: seq<EdgeView>) returns (change: Change)
      requires Valid() && (pool.Some? ==> IsSnapshot(pool.value, snapshot))
      modifies this, Edges()
      ensures Valid() && forall e :: e in Edges() ==> e in old(Edges()) || fresh(e)
      ensures Contents() == if pool.None? then old(Contents()) else Upserted(old(Contents()), pool.value, snapshot)
      ensures change == if pool.None? then Skipped
                        else if snapshot == [] then (if pool.value in old(edgesByPool) then Removed else Skipped)
                        else if pool.value !in old(edgesByPool) then Added
                        else if SamePoolTopology(old(edgesByPool)[pool.value], snapshot) then Unchanged else Updated
      ensures change == Unchanged ==> edgesByPool == old(edgesByPool)
    {
      hide Consistent, Contents, SamePoolTopology, EdgesOf;
      if pool.None? {
        return Skipped;
      }
      if snapshot == [] {
        if pool.value in edgesByPool {
          var _ := RemovePool(pool.value);
          return Removed;
        }
        return Skipped;
      }
      if pool.value !in edgesByPool {
        AddSnapshot(pool.value, snapshot);
        return Added;
      }
      if SamePoolTopology(edgesByPool[pool.value], snapshot) {
        PoolInEdges(edgesByPool, pool.value);
        RefreshEdges(pool.value, snapshot);
        return Unchanged;
      }
      var _ := RemovePool(pool.value);
      AddSnapshot(pool.value, snapshot);
      change := Updated;
    }

    // An update from a record: afterwards the pool's edges are those of its context, whatever they were,
    // and the other pools' are untouched.
    method UpsertRecord(pool: Option<Address>, context: Option<PoolContext>) returns (change: Change)
      requires Valid() && (context.Some? ==> pool == Some(context.value.pool) && Distinct(context.value.tokens))
      modifies this, Edges()
      ensures Valid() && forall e :: e in Edges() ==> e in old(Edges()) || fresh(e)
      ensures pool.None? ==> Contents() == old(Contents())
      ensures pool.Some? ==> Contents() - {pool.value} == old(Contents()) - {pool.value}
      ensures pool.Some? && context.None? ==> pool.value !in Contents()
      ensures context.Some? && 2 <= |context.value.tokens| ==>
                context.value.pool in Contents() && AreEdgesOf(context.value, Contents()[context.value.pool])
    {
      hide Consistent, AreEdgesOf, SamePoolTopology, Elements;
      var snapshot := BuildPoolEdgeSnapshot(context);
      assert pool.Some? && context.None? ==> IsSnapshot(pool.value, snapshot);
      change := UpsertPool(pool, snapshot);
    }
  }

  ghost function Views(edges: seq<Edge>): set<EdgeView>
    reads edges
  {
    set e | e in edges :: e.View()
  }

  lemma FewerEdges(byPool: map<Address, seq<Edge>>, pool: Address)
    ensures EdgesOf(byPool - {pool}) <= EdgesOf(byPool)
  {
  }

  lemma PoolInEdges(byPool: map<Address, seq<Edge>>, p: Address)
    requires p in byPool
    ensures forall e :: e in byPool[p] ==> e in EdgesOf(byPool)
  {
  }

  // The contents after a snapshot of a pool; an empty snapshot removes it.
  function Upserted(c: map<Address, set<EdgeView>>, pool: Address, snapshot: seq<EdgeView>): map<Address, set<EdgeView>> {
    if snapshot == [] then c - {pool} else c[pool := Elements(snapshot)]
  }

  lemma RefreshedViews(list: seq<Edge>, byRoute: map<Route, Edge>, snapshot: seq<EdgeView>)
    requires forall v :: v in snapshot ==>
               ViewRoute(v) in byRoute && byRoute[ViewRoute(v)] in list && byRoute[ViewRoute(v)].View() == v
    requires forall e :: e in list ==>
               e.Key() in byRoute && byRoute[e.Key()] == e && exists v :: v in snapshot && ViewRoute(v) == e.Key()
    ensures Views(list) == Elements(snapshot)
  {
  }

  lemma OthersApart(adjacency: map<Address, seq<Edge>>, tokens: set<Address>, edgeCount: int,
                    byPool: map<Address, seq<Edge>>, byRoute: map<Route, Edge>, p: Address, pool: Address)
    requires Consistent(adjacency, tokens, edgeCount, byPool, byRoute)
    requires p in byPool && pool in byPool && p != pool
    ensures forall e :: e in byPool[p] ==> e !in byPool[pool]
  {
  }

  // With the same signatures, every snapshot edge finds the existing edge of its route, and every
  // existing edge is found.
  lemma MatchingEdges(adjacency: map<Address, seq<Edge>>, tokens: set<Address>, edgeCount: int,
                      byPool: map<Address, seq<Edge>>, byRoute: map<Route, Edge>, pool: Address, snapshot: seq<EdgeView>)
    requires Consistent(adjacency, tokens, edgeCount, byPool, byRoute)
    requires pool in byPool && IsSnapshot(pool, snapshot) && SamePoolTopology(byPool[pool], snapshot)
    ensures forall v :: v in snapshot ==>
              && ViewRoute(v) in byRoute && byRoute[ViewRoute(v)] in byPool[pool]
              && byRoute[ViewRoute(v)].pool == v.pool && byRoute[ViewRoute(v)].signature == v.signature
    ensures forall e :: e in byPool[pool] ==>
              && e.Key() in byRoute && byRoute[e.Key()] == e
              && exists v :: v in snapshot && ViewRoute(v) == e.Key()
  {
    var list := byPool[pool];
    var left, right := EdgeSignatures(list), Signatures(snapshot);
    forall v | v in snapshot
      ensures ViewRoute(v) in byRoute && byRoute[ViewRoute(v)] in list
      ensures byRoute[ViewRoute(v)].pool == v.pool && byRoute[ViewRoute(v)].signature == v.signature
    {
      var i :| 0 <= i < |snapshot| && snapshot[i] == v;
      assert right[i] in multiset(right) && right[i] in multiset(left);
      var j :| 0 <= j < |left| && left[j] == right[i];
      assert list[j] in list && list[j] in EdgesOf(byPool);
      assert list[j].pool == pool && list[j].signature == v.signature;
    }
    forall e | e in list
      ensures e.Key() in byRoute && byRoute[e.Key()] == e
      ensures exists v :: v in snapshot && ViewRoute(v) == e.Key()
    {
      assert e in EdgesOf(byPool) && e.pool == pool;
      var j :| 0 <= j < |list| && list[j] == e;
      assert left[j] in multiset(left) && left[j] in multiset(right);
      var i :| 0 <= i < |right| && right[i] == left[j];
      assert snapshot[i] in snapshot && snapshot[i].signature == e.signature;
    }
  }

  lemma RemoveKeepsConsistent(adjacency: map<Address, seq<Edge>>, tokens: set<Address>, edgeCount: int,
                              byPool: map<Address, seq<Edge>>, byRoute: map<Route, Edge>, pool: Address)
    requires Consistent(adjacency, tokens, edgeCount, byPool, byRoute) && pool in byPool
    ensures AdjacencyOk(adjacency, EdgesOf(byPool)) && Distinct(byPool[pool]) && Elements(byPool[pool]) <= EdgesOf(byPool)
    ensures var gone := Elements(byPool[pool]);
            var left := EdgesOf(byPool) - gone;
            && AdjacencyOk(Pruned(adjacency, gone), left)
            && Consistent(Pruned(adjacency, gone), tokens - (EndPoints(gone) - EndPoints(left)), edgeCount - |byPool[pool]|,
                          byPool - {pool}, byRoute - Keys(gone))
  {
    hide AdjacencyOk, RoutesOk, EndPoints, EdgesOf, Pruned;
    var edges, gone := EdgesOf(byPool), Elements(byPool[pool]);
    RemoveFromPools(byPool, pool);
    PrunedIsAdjacency(adjacency, edges, gone);
    RemoveFromRoutes(byRoute, edges, gone);
    RemoveFromTokens(edges, gone);
  }

  lemma PruneNothing(adjacency: map<Address, seq<Edge>>, edges: set<Edge>)
    requires AdjacencyOk(adjacency, edges)
    ensures Pruned(adjacency, {}) == adjacency
  {
    forall t | t in adjacency
      ensures Without(adjacency[t], {}) == adjacency[t]
    {
      WithoutNone(adjacency[t]);
    }
  }

  lemma RemoveFromRoutes(byRoute: map<Route, Edge>, edges: set<Edge>, gone: set<Edge>)
    requires RoutesOk(byRoute, edges) && gone <= edges
    ensures RoutesOk(byRoute - Keys(gone), edges - gone)
  {
  }

  // A token is mentioned in the adjacency, as an origin or as a destination, exactly when it is an end
  // point of an edge.
  lemma ReferencedIsEndPoint(adjacency: map<Address, seq<Edge>>, edges: set<Edge>, token: Address)
    requires AdjacencyOk(adjacency, edges)
    ensures token in EndPoints(edges) <==>
              || (if token in adjacency then adjacency[token] else []) != []
              || exists t :: t in adjacency && exists e :: e in adjacency[t] && e.signature.tokenOut == token
  {
    assert token in adjacency ==> adjacency[token][0] in edges;
    if token in EndPoints(edges) {
      var e :| e in edges && (token == e.signature.tokenIn || token == e.signature.tokenOut);
      assert e in adjacency[e.signature.tokenIn];
    }
  }

  lemma RemoveFromTokens(edges: set<Edge>, gone: set<Edge>)
    requires gone <= edges
    ensures EndPoints(edges - gone) == EndPoints(edges) - (EndPoints(gone) - EndPoints(edges - gone))
  {
  }

  lemma FreshRoute(adjacency: map<Address, seq<Edge>>, tokens: set<Address>, edgeCount: int,
                   byPool: map<Address, seq<Edge>>, byRoute: map<Route, Edge>, pool: Address, list: seq<Edge>, e: Edge)
    requires Consistent(adjacency, tokens, edgeCount, byPool, byRoute)
    requires if list == [] then pool !in byPool else pool in byPool && byPool[pool] == list
    requires e.pool == pool && forall x :: x in list ==> x.Key() != e.Key()
    ensures e !in EdgesOf(byPool) && e.Key() !in byRoute
  {
  }
}
