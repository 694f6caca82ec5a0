/** src/routing/finder.ts: depth-first search for cycles of an exact length, with an expansion cap. */
module NHopSearch {
  import opened Addresses
  import opened Sequences
  import opened BoundedPriority
  import opened Finder

  function Tail(s: Search, prefix: Path): Address {
    if prefix == [] then s.start else prefix[|prefix| - 1].tokenOut
  }

  function Pools(prefix: Path): set<Address> {
    set e | e in prefix :: e.pool
  }

  function Tokens(prefix: Path): set<Address> {
    set e | e in prefix :: e.tokenOut
  }

  // The edge may extend the path: its pool is unused, and its token closes the cycle on the last hop
  // and is new before that.
  predicate Extends(s: Search, n: nat, prefix: Path, e: Hop) {
    && !s.prune(e) && e.pool !in Pools(prefix)
    && (if |prefix| + 1 == n then e.tokenOut == s.start else e.tokenOut != s.start && e.tokenOut !in Tokens(prefix))
  }

  // All completions of a path, in the order depth-first search visits them.
  function Completions(s: Search, n: nat, prefix: Path): seq<Path>
    requires |prefix| <= n
    decreases n - |prefix|, 1
  {
    if |prefix| == n then [prefix] else FlatMap(Out(s.net, Tail(s, prefix)), Through(s, n, prefix))
  }

  function Through(s: Search, n: nat, prefix: Path): Hop -> seq<Path>
    requires |prefix| < n
    decreases n - |prefix|, 0
  {
    (e: Hop) => if Extends(s, n, prefix, e) then Completions(s, n, prefix + [e]) else []
  }

  // --- What a cycle of n hops is ---

  predicate TokenSimple(s: Search, p: Path) {
    forall i :: 0 <= i < |p| - 1 ==> p[i].tokenOut != s.start && forall j :: 0 <= j < i ==> p[j].tokenOut != p[i].tokenOut
  }

  predicate Connected(s: Search, p: Path) {
    forall i :: 0 <= i < |p| ==> p[i] in Out(s.net, Tail(s, p[..i])) && !s.prune(p[i])
  }

  predicate NCycle(s: Search, n: nat, p: Path) {
    && |p| == n && Tail(s, p) == s.start
    && Connected(s, p) && PoolsDistinct(p) && TokenSimple(s, p)
  }

  // Hop i obeys the search rules given the hops before it.
  predicate HopOk(s: Search, n: nat, p: Path, i: nat)
    requires i < |p|
  {
    p[i] in Out(s.net, Tail(s, p[..i])) && Extends(s, n, p[..i], p[i])
  }

  // Obeying the rules hop by hop is being a cycle.
  lemma RulesMeanCycle(s: Search, n: nat, p: Path)
    requires |p| == n && n > 0
    ensures (forall i :: 0 <= i < n ==> HopOk(s, n, p, i)) <==> NCycle(s, n, p)
  {
    if forall i :: 0 <= i < n ==> HopOk(s, n, p, i) {
      RulesGiveCycle(s, n, p);
    }
    if NCycle(s, n, p) {
      forall i | 0 <= i < n
        ensures HopOk(s, n, p, i)
      {
        assert |p[..i]| == i;
      }
    }
  }

  lemma RulesGiveCycle(s: Search, n: nat, p: Path)
    requires |p| == n && n > 0 && forall i :: 0 <= i < n ==> HopOk(s, n, p, i)
    ensures NCycle(s, n, p)
  {
    assert HopOk(s, n, p, n - 1) && |p[..n - 1]| == n - 1;
    forall i, j | 0 <= i < j < n
      ensures p[i].pool != p[j].pool
    {
      assert HopOk(s, n, p, j) && p[i] in p[..j];
    }
    forall i | 0 <= i < n - 1
      ensures p[i].tokenOut != s.start && forall j :: 0 <= j < i ==> p[j].tokenOut != p[i].tokenOut
    {
      assert HopOk(s, n, p, i) && |p[..i]| == i;
      assert forall j :: 0 <= j < i ==> p[j] in p[..i];
    }
    assert forall i :: 0 <= i < n ==> HopOk(s, n, p, i) && !s.prune(p[i]);
  }

  lemma {:induction false} CompletionsIn(s: Search, n: nat, prefix: Path, p: Path)
    requires |prefix| <= n
    ensures p in Completions(s, n, prefix) <==>
              |p| == n && prefix <= p && forall i :: |prefix| <= i < n ==> HopOk(s, n, p, i)
    decreases n - |prefix|
  {
    hide Completions, Out, Extends;
    var k := |prefix|;
    if k < n {
      CompletionsSplit(s, n, prefix, p);
      if e :| CompletesThrough(s, n, prefix, p, e) {
        CompletionsIn(s, n, prefix + [e], p);
        assert p[k] == e && p[..k] == prefix;
        assert HopOk(s, n, p, k);
      }
      if |p| == n && prefix <= p && forall i :: k <= i < n ==> HopOk(s, n, p, i) {
        assert HopOk(s, n, p, k) && p[..k] == prefix;
        CompletionsIn(s, n, prefix + [p[k]], p);
        assert CompletesThrough(s, n, prefix, p, p[k]);
      }
    } else {
      FullPath(s, n, prefix);
      assert |p| == n && prefix <= p <==> p == prefix;
    }
  }

  predicate CompletesThrough(s: Search, n: nat, prefix: Path, p: Path, e: Hop)
    requires |prefix| < n
  {
    e in Out(s.net, Tail(s, prefix)) && Extends(s, n, prefix, e) && p in Completions(s, n, prefix + [e])
  }

  lemma CompletionsSplit(s: Search, n: nat, prefix: Path, p: Path)
    requires |prefix| < n
    ensures p in Completions(s, n, prefix) <==> exists e :: CompletesThrough(s, n, prefix, p, e)
  {
    hide FlatMap, Extends, Out;
    FlatMapIn(Out(s.net, Tail(s, prefix)), Through(s, n, prefix), p);
    assert forall e :: e in Out(s.net, Tail(s, prefix)) && p in Through(s, n, prefix)(e) ==>
                         CompletesThrough(s, n, prefix, p, e);
    assert forall e :: CompletesThrough(s, n, prefix, p, e) ==> p in Through(s, n, prefix)(e);
  }

  lemma FullPath(s: Search, n: nat, prefix: Path)
    requires |prefix| == n
    ensures Completions(s, n, prefix) == [prefix]
  {
  }

  // The uncapped search finds exactly the cycles of n hops.
  lemma NHopsExact(s: Search, n: nat, p: Path)
    requires n > 0
    ensures p in Completions(s, n, []) <==> NCycle(s, n, p)
  {
    CompletionsIn(s, n, [], p);
    if |p| == n {
      RulesMeanCycle(s, n, p);
    }
  }

  lemma {:induction false} CompletionsDistinct(s: Search, n: nat, prefix: Path)
    requires |prefix| <= n && Clean(s.net)
    ensures Distinct(Completions(s, n, prefix))
    decreases n - |prefix|
  {
    if |prefix| < n {
      var out, f := Out(s.net, Tail(s, prefix)), Through(s, n, prefix);
      forall e | e in out
        ensures Distinct(f(e)) && forall p :: p in f(e) ==> |p| == n && p[|prefix|] == e
      {
        if Extends(s, n, prefix, e) {
          CompletionsDistinct(s, n, prefix + [e]);
          forall p | p in f(e)
            ensures |p| == n && p[|prefix|] == e
          {
            CompletionsIn(s, n, prefix + [e], p);
          }
        }
      }
      FlatMapDistinct(out, f);
    }
  }

  // The four-hop cycles of the depth-first rules are those of the meet-in-the-middle search whose
  // second and fourth tokens differ.
  lemma FourHopsAgree(s: Search, p: Path)
    ensures NCycle(s, 4, p) <==> FourCycle(s, p) && p[0].tokenOut != p[2].tokenOut
  {
    if |p| == 4 {
      assert p[..0] == [] && p[..1][0] == p[0] && p[..2][1] == p[1] && p[..3][2] == p[2];
    }
  }

  // --- Every edge tried ---

  // The paths the search tries from here, each an edge longer than one it follows, in the order it
  // tries them. Their number is the size of the search.
  function Tries(s: Search, n: nat, prefix: Path): seq<Path>
    requires |prefix| < n
    decreases n - |prefix|, 2
  {
    FlatMap(Out(s.net, Tail(s, prefix)), TryThrough(s, n, prefix))
  }

  function TryThrough(s: Search, n: nat, prefix: Path): Hop -> seq<Path>
    requires |prefix| < n
    decreases n - |prefix|, 1
  {
    (e: Hop) => [prefix + [e]] + Deeper(s, n, prefix, e)
  }

  function Deeper(s: Search, n: nat, prefix: Path, e: Hop): seq<Path>
    requires |prefix| < n
    decreases n - |prefix|, 0
  {
    if |prefix| + 1 < n && Extends(s, n, prefix, e) then Tries(s, n, prefix + [e]) else []
  }

  // A path tried is a cycle when its last edge closes it.
  function IfClosed(s: Search, n: nat): Path -> seq<Path> {
    (p: Path) => if 0 < n == |p| && Extends(s, n, p[..n - 1], p[n - 1]) then [p] else []
  }

  // The cycles among the paths tried.
  function Found(s: Search, n: nat, tries: seq<Path>): seq<Path> {
    FlatMap(tries, IfClosed(s, n))
  }

  // Those among all paths tried are all completions.
  lemma {:induction false} TriesFindAll(s: Search, n: nat, prefix: Path)
    requires |prefix| < n
    ensures Found(s, n, Tries(s, n, prefix)) == Completions(s, n, prefix)
    decreases n - |prefix|
  {
    hide FlatMap, Extends, Out, Found;
    var out, f, h := Out(s.net, Tail(s, prefix)), TryThrough(s, n, prefix), Through(s, n, prefix);
    forall e
      ensures Found(s, n, f(e)) == h(e)
    {
      FoundConcat(s, n, [prefix + [e]], Deeper(s, n, prefix, e));
      FoundOne(s, n, prefix, e);
      FoundNone(s, n);
      if |prefix| + 1 == n {
        FullPath(s, n, prefix + [e]);
      } else if Extends(s, n, prefix, e) {
        TriesFindAll(s, n, prefix + [e]);
      }
      assert f(e) == [prefix + [e]] + Deeper(s, n, prefix, e);
    }
    NestedTries(s, n, out, f, h);
  }

  lemma NestedTries(s: Search, n: nat, out: seq<Hop>, f: Hop -> seq<Path>, h: Hop -> seq<Path>)
    requires forall e :: Found(s, n, f(e)) == h(e)
    ensures Found(s, n, FlatMap(out, f)) == FlatMap(out, h)
  {
    FlatMapNested(out, f, IfClosed(s, n), h);
  }

  lemma FoundConcat(s: Search, n: nat, a: seq<Path>, b: seq<Path>)
    ensures Found(s, n, a + b) == Found(s, n, a) + Found(s, n, b)
  {
    FlatMapConcat(a, b, IfClosed(s, n));
  }

  lemma FoundNone(s: Search, n: nat)
    ensures Found(s, n, []) == []
  {
  }

  lemma FoundOne(s: Search, n: nat, prefix: Path, e: Hop)
    requires |prefix| < n
    ensures Found(s, n, [prefix + [e]]) == if |prefix| + 1 == n && Extends(s, n, prefix, e) then [prefix + [e]] else []
  {
    hide FlatMap;
    FlatMapOne(prefix + [e], IfClosed(s, n));
    assert (prefix + [e])[..|prefix|] == prefix;
  }

  // Stopping after k tries loses only cycles from the end.
  lemma StoppingKeepsPrefix(s: Search, n: nat, k: nat)
    requires 0 < n
    ensures Found(s, n, Take(Tries(s, n, []), k)) <= Completions(s, n, [])
    ensures |Tries(s, n, [])| <= k ==> Found(s, n, Take(Tries(s, n, []), k)) == Completions(s, n, [])
  {
    hide Tries, Found;
    TriesFindAll(s, n, []);
    var all := Tries(s, n, []);
    if k < |all| {
      assert all == all[..k] + all[k..];
      FoundConcat(s, n, all[..k], all[k..]);
    }
  }

  // --- The search as the code runs it ---

  class Explorer {
    const s: Search
    const n: nat
    const maxExpansions: nat
    const limit: nat
    const w: Path -> int
    var paths: seq<Path>
    var edges: Path
    var usedPools: set<Address>
    var visitedTokens: set<Address>
    var expansions: nat
    ghost var emitted: seq<Path>

    constructor (s: Search, n: nat, maxExpansions: nat, limit: nat, w: Path -> int)
      ensures this.s == s && this.n == n && this.maxExpansions == maxExpansions && this.limit == limit && this.w == w
      ensures edges == [] && emitted == [] && expansions == 0 && InStep()
    {
      this.s, this.n, this.maxExpansions, this.limit, this.w := s, n, maxExpansions, limit, w;
      paths, edges, usedPools, visitedTokens, expansions, emitted := [], [], {}, {}, 0, [];
    }

    // The two sets mirror the stack of edges, and the buffer selects like everything emitted.
    ghost predicate InStep()
      reads this
    {
      && usedPools == Pools(edges) && visitedTokens == Tokens(edges)
      && Selects(paths, emitted, limit, w) && expansions <= maxExpansions
    }

    // Since the counter was `at`, with `before` emitted, these paths have been tried, as many of them
    // as the cap had room for.
    ghost predicate Tried(before: seq<Path>, at: nat, tries: seq<Path>)
      requires at <= maxExpansions
      reads this
    {
      var done := Take(tries, maxExpansions - at);
      expansions == at + |done| && emitted == before + Found(s, n, done)
    }

    predicate Restored(e: Path, u: set<Address>, v: set<Address>)
      reads this
    {
      edges == e && usedPools == u && visitedTokens == v
    }

    // The stacks are back where they were on every exit.
    method Dfs(current: Address, depth: nat)
      requires InStep() && depth == |edges| < n && current == Tail(s, edges)
      modifies this
      ensures InStep() && Restored(old(edges), old(usedPools), old(visitedTokens))
      ensures Tried(old(emitted), old(expansions), Tries(s, n, edges))
      decreases n - depth, 1
    {
      hide FlatMap, TopN, Selects, Pools, Tokens, Tries, Deeper, Found, Take, Out, Extends, MayPush;
      ghost var prefix, before, at := edges, emitted, expansions;
      ghost var room := maxExpansions - at;
      var out := Out(s.net, current);
      ghost var f := TryThrough(s, n, prefix);
      FlatMapEnds(out, f);
      assert Tries(s, n, prefix) == FlatMap(out, f) by { OneLevel(s, n, prefix); }
      TakeNothing(s, n, Tries(s, n, prefix), room);
      if expansions >= maxExpansions {
        return;
      }
      for i := 0 to |out|
        invariant InStep() && Restored(prefix, old(usedPools), old(visitedTokens))
        invariant Tried(before, at, FlatMap(out[..i], f))
      {
        ghost var done := FlatMap(out[..i], f);
        if expansions >= maxExpansions {
          FlatMapConcat(out[..i], out[i..], f);
          assert out == out[..i] + out[i..];
          TakeFull(done, FlatMap(out[i..], f), room);
          return;
        }
        FlatMapSnoc(out, i, f);
        TryOne(s, n, prefix, out[i], done, room);
        expansions := expansions + 1;
        if MayPush(out[i], depth) {
          Visit(out[i], depth, depth + 1 == n);
        }
      }
    }

    // The tests an edge passes before it is pushed.
    predicate MayPush(edge: Hop, depth: nat)
      reads this
      ensures InStep() && depth == |edges| ==> MayPush(edge, depth) == Extends(s, n, edges, edge)
    {
      && !s.prune(edge) && edge.pool !in usedPools
      && (if depth + 1 == n then edge.tokenOut == s.start
          else edge.tokenOut != s.start && edge.tokenOut !in visitedTokens)
    }

    // Push the edge, emit the closed cycle or go one hop deeper, and pop the edge again.
    method Visit(edge: Hop, depth: nat, final: bool)
      requires InStep() && depth == |edges| < n && final == (depth + 1 == n) && Extends(s, n, edges, edge)
      modifies this
      ensures InStep() && Restored(old(edges), old(usedPools), old(visitedTokens))
      ensures Tried(old(emitted) + (if final then [edges + [edge]] else []), old(expansions), Deeper(s, n, edges, edge))
      decreases n - depth, 0
    {
      hide FlatMap, TopN, Tries, Found;
      StackGrows(edges, edge);
      FoundNone(s, n);
      edges := edges + [edge];
      usedPools := usedPools + {edge.pool};
      if final {
        SamePush(paths, emitted, edges, limit, w);
        paths := PushTopPath(paths, edges, limit, w);
        TopNIsSortedPrefix(paths, limit, w);
        emitted := emitted + [edges];
      } else {
        visitedTokens := visitedTokens + {edge.tokenOut};
        Dfs(edge.tokenOut, depth + 1);
        visitedTokens := visitedTokens - {edge.tokenOut};
      }
      usedPools := usedPools - {edge.pool};
      edges := edges[..|edges| - 1];
    }
  }

  lemma OneLevel(s: Search, n: nat, prefix: Path)
    requires |prefix| < n
    ensures Tries(s, n, prefix) == FlatMap(Out(s.net, Tail(s, prefix)), TryThrough(s, n, prefix))
  {
  }

  lemma StackGrows(prefix: Path, e: Hop)
    ensures Pools(prefix + [e]) == Pools(prefix) + {e.pool}
    ensures Tokens(prefix + [e]) == Tokens(prefix) + {e.tokenOut}
  {
  }

  lemma TakeNothing(s: Search, n: nat, tries: seq<Path>, room: nat)
    ensures Take<Path>([], room) == [] && Found(s, n, []) == []
    ensures Take(tries, 0) == []
  {
  }

  lemma TakeFull(a: seq<Path>, b: seq<Path>, room: nat)
    requires |Take(a, room)| == room
    ensures Take(a + b, room) == Take(a, room)
  {
  }

  // One more edge with room for it: the edge itself counts, then whatever lies deeper.
  lemma TryOne(s: Search, n: nat, prefix: Path, e: Hop, done: seq<Path>, room: nat)
    requires |prefix| < n && |Take(done, room)| < room
    ensures var more := Take(Deeper(s, n, prefix, e), room - |Take(done, room)| - 1);
            var all := Take(done + TryThrough(s, n, prefix)(e), room);
            && |all| == |Take(done, room)| + 1 + |more|
            && Found(s, n, all) == Found(s, n, Take(done, room))
                 + (if |prefix| + 1 == n && Extends(s, n, prefix, e) then [prefix + [e]] else []) + Found(s, n, more)
            && (!Extends(s, n, prefix, e) ==> more == [] && Found(s, n, more) == [])
  {
    hide Found, Extends, Tries;
    var more := Take(Deeper(s, n, prefix, e), room - |done| - 1);
    assert Take(done + TryThrough(s, n, prefix)(e), room) == done + [prefix + [e]] + more;
    FoundConcat(s, n, done + [prefix + [e]], more);
    FoundConcat(s, n, done, [prefix + [e]]);
    FoundOne(s, n, prefix, e);
    FoundNone(s, n);
  }

  // The `limit` lightest of the cycles among the first `maxExpansions` paths the search tries.
  method FindNHopPaths(s: Search, n: int, maxExpansions: nat, limit: nat, w: Path -> int)
    returns (r: seq<Path>, expansions: nat)
    ensures n < 2 ==> r == []
    ensures n >= 2 ==> r == Take(StableSort(Found(s, n, Take(Tries(s, n, []), maxExpansions)), w), limit)
    ensures n >= 2 ==> expansions == |Take(Tries(s, n, []), maxExpansions)|
    ensures n >= 2 && |Tries(s, n, [])| <= maxExpansions ==> r == Take(StableSort(Completions(s, n, []), w), limit)
  {
    hide FlatMap, TopN, StableSort, Found, Tries, Completions;
    if n < 2 {
      return [], 0;
    }
    var x := new Explorer(s, n, maxExpansions, limit, w);
    x.Dfs(s.start, 0);
    r := TakeTopNBy(x.paths, limit, w);
    expansions := x.expansions;
    ghost var found := Found(s, n, Take(Tries(s, n, []), maxExpansions));
    assert [] + found == found;
    TopNIsSortedPrefix(x.emitted, limit, w);
    StoppingKeepsPrefix(s, n, maxExpansions);
  }
}
