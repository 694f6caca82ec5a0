/** src/routing/finder.ts: cycle search, meet-in-the-middle for four hops and depth-first beyond. */
module Finder {
  import opened Addresses
  import opened Sequences
  import opened BoundedPriority

  // A swap edge; `id` tells apart edges that agree in everything routing looks at.
  datatype Hop = Hop(pool: Address, tokenIn: Address, tokenOut: Address, id: nat)

  // Outgoing edges by token.
  type Net = map<Address, seq<Hop>>

  type Path = seq<Hop>

  // What a search fixes: the graph, the start token and the liquidity pruning rule.
  datatype Search = Search(net: Net, start: Address, prune: Hop -> bool)

  function Out(net: Net, token: Address): seq<Hop> {
    if token in net then net[token] else []
  }

  function Between(net: Net, tokenIn: Address, tokenOut: Address): seq<Hop> {
    SelectTo(Out(net, tokenIn), tokenOut)
  }

  function SelectTo(hops: seq<Hop>, tokenOut: Address): (r: seq<Hop>)
    ensures forall e :: e in r <==> e in hops && e.tokenOut == tokenOut
    ensures Distinct(hops) ==> Distinct(r)
  {
    if hops == [] then []
    else
      var rest := SelectTo(hops[1..], tokenOut);
      assert Distinct(hops) ==> Distinct(hops[1..]);
      if hops[0].tokenOut == tokenOut then [hops[0]] + rest else rest
  }

  // No edge is listed twice.
  predicate Clean(net: Net) {
    forall t :: t in net ==> Distinct(net[t])
  }

  // --- Four hops: what counts as a cycle ---

  predicate PoolsDistinct(p: Path) {
    forall i, j :: 0 <= i < j < |p| ==> p[i].pool != p[j].pool
  }

  // A -> B -> C -> D -> A with B, C, D other than A, C other than B and D; B and D may coincide.
  predicate FourCycle(s: Search, p: Path) {
    && |p| == 4
    && p[0] in Out(s.net, s.start) && p[1] in Out(s.net, p[0].tokenOut)
    && p[2] in Out(s.net, p[1].tokenOut) && p[3] in Out(s.net, p[2].tokenOut)
    && p[3].tokenOut == s.start
    && p[0].tokenOut != s.start && p[1].tokenOut != s.start && p[2].tokenOut != s.start
    && p[1].tokenOut != p[0].tokenOut && p[2].tokenOut != p[1].tokenOut
    && PoolsDistinct(p)
    && !s.prune(p[0]) && !s.prune(p[1]) && !s.prune(p[2]) && !s.prune(p[3])
  }

  // --- The two halves and their join, in the order the loops visit them ---

  type Pair = (Hop, Hop)

  function ForwardSecond(s: Search, e1: Hop): Hop -> seq<Pair> {
    (e2: Hop) =>
      if s.prune(e2) || e2.tokenOut == s.start || e2.tokenOut == e1.tokenOut || e2.pool == e1.pool then [] else [(e1, e2)]
  }

  function ForwardFirst(s: Search): Hop -> seq<Pair> {
    (e1: Hop) =>
      if s.prune(e1) || e1.tokenOut == s.start then [] else FlatMap(Out(s.net, e1.tokenOut), ForwardSecond(s, e1))
  }

  function Forward(s: Search): seq<Pair> {
    FlatMap(Out(s.net, s.start), ForwardFirst(s))
  }

  function BackwardSecond(s: Search, e3: Hop): Hop -> seq<Pair> {
    (e4: Hop) => if s.prune(e4) || e4.pool == e3.pool then [] else [(e3, e4)]
  }

  function BackwardFirst(s: Search, mid: Address): Hop -> seq<Pair> {
    (e3: Hop) =>
      if s.prune(e3) || e3.tokenOut == s.start || e3.tokenOut == mid then []
      else FlatMap(Between(s.net, e3.tokenOut, s.start), BackwardSecond(s, e3))
  }

  function Backward(s: Search, mid: Address): seq<Pair> {
    FlatMap(Out(s.net, mid), BackwardFirst(s, mid))
  }

  function JoinWith(f: Pair): Pair -> seq<Path> {
    (b: Pair) =>
      var p := [f.0, f.1, b.0, b.1];
      if PoolsDistinct(p) then [p] else []
  }

  function JoinOne(back: seq<Pair>): Pair -> seq<Path> {
    (f: Pair) => FlatMap(back, JoinWith(f))
  }

  // --- Grouping by meeting token: an insertion-ordered map of lists ---

  datatype Groups = Groups(keys: seq<Address>, lists: map<Address, seq<Pair>>)

  function AddTo(g: Groups, key: Address, p: Pair): Groups {
    if key in g.lists then g.(lists := g.lists[key := g.lists[key] + [p]])
    else Groups(g.keys + [key], g.lists[key := [p]])
  }

  function GroupAll(pairs: seq<Pair>): Groups {
    if pairs == [] then Groups([], map[])
    else AddTo(GroupAll(pairs[..|pairs| - 1]), pairs[|pairs| - 1].1.tokenOut, pairs[|pairs| - 1])
  }

  function AtMid(mid: Address): Pair -> seq<Pair> {
    (p: Pair) => if p.1.tokenOut == mid then [p] else []
  }

  lemma {:induction false} GroupsAreSelections(pairs: seq<Pair>)
    ensures Distinct(GroupAll(pairs).keys)
    ensures forall k :: k in GroupAll(pairs).keys <==> k in GroupAll(pairs).lists
    ensures forall k :: k in GroupAll(pairs).lists ==> GroupAll(pairs).lists[k] == FlatMap(pairs, AtMid(k))
    ensures forall k :: k !in GroupAll(pairs).lists ==> FlatMap(pairs, AtMid(k)) == []
  {
    if pairs != [] {
      GroupsAreSelections(pairs[..|pairs| - 1]);
    }
  }

  // Everything the join emits before any cap.
  function JoinAt(s: Search, pairs: seq<Pair>): Address -> seq<Path> {
    (mid: Address) => FlatMap(FlatMap(pairs, AtMid(mid)), JoinOne(Backward(s, mid)))
  }

  function FourHopPaths(s: Search): seq<Path> {
    FlatMap(GroupAll(Forward(s)).keys, JoinAt(s, Forward(s)))
  }

  // --- Soundness and completeness of the two halves ---

  predicate ForwardPair(s: Search, f: Pair) {
    && f.0 in Out(s.net, s.start) && f.1 in Out(s.net, f.0.tokenOut)
    && !s.prune(f.0) && !s.prune(f.1)
    && f.0.tokenOut != s.start && f.1.tokenOut != s.start && f.1.tokenOut != f.0.tokenOut && f.1.pool != f.0.pool
  }

  predicate BackwardPair(s: Search, mid: Address, b: Pair) {
    && b.0 in Out(s.net, mid) && b.1 in Out(s.net, b.0.tokenOut)
    && !s.prune(b.0) && !s.prune(b.1)
    && b.0.tokenOut != s.start && b.0.tokenOut != mid && b.1.tokenOut == s.start && b.1.pool != b.0.pool
  }

  lemma ForwardIn(s: Search, f: Pair)
    ensures f in Forward(s) <==> ForwardPair(s, f)
  {
    FlatMapIn(Out(s.net, s.start), ForwardFirst(s), f);
    forall e1 | e1 in Out(s.net, s.start)
      ensures f in ForwardFirst(s)(e1) <==> f.0 == e1 && ForwardPair(s, f)
    {
      FlatMapIn(Out(s.net, e1.tokenOut), ForwardSecond(s, e1), f);
    }
  }

  lemma BackwardIn(s: Search, mid: Address, b: Pair)
    ensures b in Backward(s, mid) <==> BackwardPair(s, mid, b)
  {
    FlatMapIn(Out(s.net, mid), BackwardFirst(s, mid), b);
    forall e3 | e3 in Out(s.net, mid)
      ensures b in BackwardFirst(s, mid)(e3) <==> b.0 == e3 && BackwardPair(s, mid, b)
    {
      FlatMapIn(Between(s.net, e3.tokenOut, s.start), BackwardSecond(s, e3), b);
    }
  }

  lemma ForwardDistinct(s: Search)
    requires Clean(s.net)
    ensures Distinct(Forward(s))
  {
    var first := ForwardFirst(s);
    forall e1 | e1 in Out(s.net, s.start)
      ensures Distinct(first(e1)) && forall f :: f in first(e1) ==> f.0 == e1
    {
      var second := ForwardSecond(s, e1);
      forall f | f in first(e1)
        ensures f.0 == e1
      {
        FlatMapIn(Out(s.net, e1.tokenOut), second, f);
      }
      FlatMapDistinct(Out(s.net, e1.tokenOut), second);
    }
    FlatMapDistinct(Out(s.net, s.start), first);
  }

  lemma BackwardDistinct(s: Search, mid: Address)
    requires Clean(s.net)
    ensures Distinct(Backward(s, mid))
  {
    var first := BackwardFirst(s, mid);
    forall e3 | e3 in Out(s.net, mid)
      ensures Distinct(first(e3)) && forall b :: b in first(e3) ==> b.0 == e3
    {
      var second := BackwardSecond(s, e3);
      forall b | b in first(e3)
        ensures b.0 == e3
      {
        FlatMapIn(Between(s.net, e3.tokenOut, s.start), second, b);
      }
      FlatMapDistinct(Between(s.net, e3.tokenOut, s.start), second);
    }
    FlatMapDistinct(Out(s.net, mid), first);
  }

  // --- The join ---

  lemma JoinAtIn(s: Search, mid: Address, p: Path)
    ensures p in JoinAt(s, Forward(s))(mid) <==> FourCycle(s, p) && p[1].tokenOut == mid
  {
    hide FlatMap, JoinOne, Forward, Backward;
    var back := Backward(s, mid);
    var group := FlatMap(Forward(s), AtMid(mid));
    FlatMapIn(group, JoinOne(back), p);
    if f :| f in group && p in JoinOne(back)(f) {
      GroupIn(s, mid, f);
      JoinOneIn(s, mid, f, p);
    }
    if FourCycle(s, p) && p[1].tokenOut == mid {
      GroupIn(s, mid, (p[0], p[1]));
      JoinOneIn(s, mid, (p[0], p[1]), p);
    }
  }

  lemma GroupIn(s: Search, mid: Address, f: Pair)
    ensures f in FlatMap(Forward(s), AtMid(mid)) <==> ForwardPair(s, f) && f.1.tokenOut == mid
  {
    FlatMapIn(Forward(s), AtMid(mid), f);
    ForwardIn(s, f);
  }

  lemma JoinOneIn(s: Search, mid: Address, f: Pair, p: Path)
    requires ForwardPair(s, f) && f.1.tokenOut == mid
    ensures p in JoinOne(Backward(s, mid))(f) <==> FourCycle(s, p) && p[1].tokenOut == mid && f == (p[0], p[1])
  {
    hide FlatMap, Backward, Out;
    var back := Backward(s, mid);
    FlatMapIn(back, JoinWith(f), p);
    if p in FlatMap(back, JoinWith(f)) {
      var b :| b in back && p in JoinWith(f)(b);
      BackwardIn(s, mid, b);
    }
    if FourCycle(s, p) && p[1].tokenOut == mid && f == (p[0], p[1]) {
      BackwardIn(s, mid, (p[2], p[3]));
      assert p == [f.0, f.1, p[2], p[3]];
      assert p in JoinWith(f)((p[2], p[3]));
    }
  }

  // Meet in the middle finds exactly the four-hop cycles of the brute-force definition.
  lemma FourHopsExact(s: Search, p: Path)
    ensures p in FourHopPaths(s) <==> FourCycle(s, p)
  {
    var pairs := Forward(s);
    var keys := GroupAll(pairs).keys;
    FlatMapIn(keys, JoinAt(s, pairs), p);
    forall mid | mid in keys
      ensures p in JoinAt(s, pairs)(mid) <==> FourCycle(s, p) && p[1].tokenOut == mid
    {
      JoinAtIn(s, mid, p);
    }
    if FourCycle(s, p) {
      var f, mid := (p[0], p[1]), p[1].tokenOut;
      ForwardIn(s, f);
      FlatMapIn(pairs, AtMid(mid), f);
      GroupsAreSelections(pairs);
      assert mid in keys;
    }
  }

  lemma JoinAtDistinct(s: Search, mid: Address)
    requires Clean(s.net)
    ensures Distinct(JoinAt(s, Forward(s))(mid))
  {
    var pairs, back := Forward(s), Backward(s, mid);
    ForwardDistinct(s);
    BackwardDistinct(s, mid);
    FlatMapDistinct(pairs, AtMid(mid));
    var group := FlatMap(pairs, AtMid(mid));
    hide FlatMap, JoinOne, AtMid;
    forall f | f in group
      ensures Distinct(JoinOne(back)(f)) && forall p :: p in JoinOne(back)(f) ==> |p| == 4 && (p[0], p[1]) == f
    {
      JoinOneDistinct(back, f);
    }
    FlatMapDistinct(group, JoinOne(back));
  }

  lemma JoinOneDistinct(back: seq<Pair>, f: Pair)
    requires Distinct(back)
    ensures Distinct(JoinOne(back)(f)) && forall p :: p in JoinOne(back)(f) ==> |p| == 4 && (p[0], p[1]) == f
  {
    hide FlatMap, PoolsDistinct;
    forall p | p in JoinOne(back)(f)
      ensures |p| == 4 && (p[0], p[1]) == f
    {
      FlatMapIn(back, JoinWith(f), p);
    }
    FlatMapDistinct(back, JoinWith(f));
  }

  // Each cycle is found once.
  lemma FourHopsOnce(s: Search)
    requires Clean(s.net)
    ensures Distinct(FourHopPaths(s))
  {
    var pairs := Forward(s);
    var keys := GroupAll(pairs).keys;
    GroupsAreSelections(pairs);
    forall mid | mid in keys
      ensures Distinct(JoinAt(s, pairs)(mid))
    {
      JoinAtDistinct(s, mid);
    }
    forall a, c, p | a in keys && c in keys && p in JoinAt(s, pairs)(a) && p in JoinAt(s, pairs)(c)
      ensures a == c
    {
      JoinAtIn(s, a, p);
      JoinAtIn(s, c, p);
    }
    FlatMapDistinct(keys, JoinAt(s, pairs));
  }

  // --- The search as the code runs it ---

  // Forward half: pairs grouped by their meeting token, in order of discovery.
  method ForwardGroups(s: Search) returns (fwd: Groups)
    ensures fwd == GroupAll(Forward(s))
  {
    hide FlatMap, Out;
    fwd := Groups([], map[]);
    ghost var pairs: seq<Pair> := [];
    var first := Out(s.net, s.start);
    FlatMapEnds(first, ForwardFirst(s));
    for i := 0 to |first|
      invariant pairs == FlatMap(first[..i], ForwardFirst(s)) && fwd == GroupAll(pairs)
    {
      FlatMapSnoc(first, i, ForwardFirst(s));
      var e1 := first[i];
      if s.prune(e1) || e1.tokenOut == s.start {
        continue;
      }
      ghost var before := pairs;
      var second := Out(s.net, e1.tokenOut);
      FlatMapEnds(second, ForwardSecond(s, e1));
      for j := 0 to |second|
        invariant pairs == before + FlatMap(second[..j], ForwardSecond(s, e1)) && fwd == GroupAll(pairs)
      {
        FlatMapSnoc(second, j, ForwardSecond(s, e1));
        var e2 := second[j];
        if s.prune(e2) || e2.tokenOut == s.start || e2.tokenOut == e1.tokenOut || e2.pool == e1.pool {
          continue;
        }
        assert (pairs + [(e1, e2)])[..|pairs|] == pairs;
        fwd := AddTo(fwd, e2.tokenOut, (e1, e2));
        pairs := pairs + [(e1, e2)];
      }
    }
  }

  // Backward half from one meeting token.
  method BackwardPairs(s: Search, mid: Address) returns (back: seq<Pair>)
    ensures back == Backward(s, mid)
  {
    hide FlatMap, Out, Between;
    back := [];
    var third := Out(s.net, mid);
    FlatMapEnds(third, BackwardFirst(s, mid));
    for i := 0 to |third|
      invariant back == FlatMap(third[..i], BackwardFirst(s, mid))
    {
      FlatMapSnoc(third, i, BackwardFirst(s, mid));
      var e3 := third[i];
      if s.prune(e3) || e3.tokenOut == s.start || e3.tokenOut == mid {
        continue;
      }
      ghost var before := back;
      var fourth := Between(s.net, e3.tokenOut, s.start);
      FlatMapEnds(fourth, BackwardSecond(s, e3));
      for j := 0 to |fourth|
        invariant back == before + FlatMap(fourth[..j], BackwardSecond(s, e3))
      {
        FlatMapSnoc(fourth, j, BackwardSecond(s, e3));
        var e4 := fourth[j];
        if !s.prune(e4) && e4.pool != e3.pool {
          back := back + [(e3, e4)];
        }
      }
    }
  }

  // The buffer selects like everything emitted so far.
  ghost predicate Selects(paths: seq<Path>, emitted: seq<Path>, limit: nat, w: Path -> int) {
    TopN(paths, limit, w) == TopN(emitted, limit, w) && |paths| <= 2 * limit
  }

  // Join at one meeting token: every pair of halves with four different pools.
  method JoinHalves(fwd: seq<Pair>, back: seq<Pair>, paths: seq<Path>, limit: nat, w: Path -> int, ghost emitted: seq<Path>)
    returns (r: seq<Path>)
    requires Selects(paths, emitted, limit, w)
    ensures Selects(r, emitted + FlatMap(fwd, JoinOne(back)), limit, w)
  {
    hide FlatMap, PoolsDistinct, TopN;
    r := paths;
    ghost var all := emitted;
    FlatMapEnds(fwd, JoinOne(back));
    for i := 0 to |fwd|
      invariant all == emitted + FlatMap(fwd[..i], JoinOne(back)) && Selects(r, all, limit, w)
    {
      FlatMapSnoc(fwd, i, JoinOne(back));
      var f := fwd[i];
      ghost var before := all;
      FlatMapEnds(back, JoinWith(f));
      for j := 0 to |back|
        invariant all == before + FlatMap(back[..j], JoinWith(f)) && Selects(r, all, limit, w)
      {
        FlatMapSnoc(back, j, JoinWith(f));
        var p1, p2, p3, p4 := f.0.pool, f.1.pool, back[j].0.pool, back[j].1.pool;
        var path := [f.0, f.1, back[j].0, back[j].1];
        SixComparisons(path);
        if p1 == p2 || p1 == p3 || p1 == p4 || p2 == p3 || p2 == p4 || p3 == p4 {
          continue;
        }
        SamePush(r, all, path, limit, w);
        r := PushTopPath(r, path, limit, w);
        TopNIsSortedPrefix(r, limit, w);
        all := all + [path];
      }
    }
  }

  lemma SixComparisons(p: Path)
    requires |p| == 4
    ensures PoolsDistinct(p) <==> && p[0].pool != p[1].pool && p[0].pool != p[2].pool && p[0].pool != p[3].pool
                                  && p[1].pool != p[2].pool && p[1].pool != p[3].pool && p[2].pool != p[3].pool
  {
  }

  lemma NoPaths(s: Search, limit: nat, w: Path -> int)
    requires GroupAll(Forward(s)).keys == []
    ensures Take(StableSort(FourHopPaths(s), w), limit) == []
  {
  }

  // The result is the `limit` lightest of all four-hop cycles, in the order a stable sort gives.
  method Find4HopPathsBidirectional(s: Search, limit: nat, w: Path -> int) returns (r: seq<Path>)
    ensures r == Take(StableSort(FourHopPaths(s), w), limit)
  {
    hide FlatMap, TopN, GroupAll, Forward, Backward, StableSort;
    var fwd := ForwardGroups(s);
    GroupsAreSelections(Forward(s));
    if fwd.keys == [] {
      NoPaths(s, limit, w);
      return [];
    }
    var bwd: map<Address, seq<Pair>> := map[];
    for i := 0 to |fwd.keys|
      invariant forall k :: k in fwd.keys[..i] ==> k in bwd && bwd[k] == Backward(s, k)
    {
      var pairs := BackwardPairs(s, fwd.keys[i]);
      bwd := bwd[fwd.keys[i] := pairs];
    }
    var paths: seq<Path> := [];
    ghost var join := JoinAt(s, Forward(s));
    FlatMapEnds(fwd.keys, join);
    for i := 0 to |fwd.keys|
      invariant Selects(paths, FlatMap(fwd.keys[..i], join), limit, w)
    {
      var mid := fwd.keys[i];
      FlatMapSnoc(fwd.keys, i, join);
      assert mid in fwd.keys[..|fwd.keys|];
      paths := JoinHalves(fwd.lists[mid], bwd[mid], paths, limit, w, FlatMap(fwd.keys[..i], join));
    }
    TopNIsSortedPrefix(FourHopPaths(s), limit, w);
    r := TakeTopNBy(paths, limit, w);
  }
}
