/** src/routing/worker_pool.ts, buildEvaluationChunks: sharing a batch of routes out among workers. */
module EvaluationChunks {
  import opened Addresses
  import opened Sequences
  import opened BoundedPriority
  import opened Simulator
  import opened WorkerMirror

  // The start tokens, in order of first appearance.
  function Tokens(paths: seq<Route>): seq<Address> {
    if paths == [] then []
    else
      var before, last := Tokens(paths[..|paths| - 1]), paths[|paths| - 1].startToken;
      if last in before then before else before + [last]
  }

  // The routes of one start token, in order.
  function Group(paths: seq<Route>, token: Address): seq<Route> {
    if paths == [] then []
    else
      Group(paths[..|paths| - 1], token)
      + (if paths[|paths| - 1].startToken == token then [paths[|paths| - 1]] else [])
  }

  function Groups(paths: seq<Route>, tokens: seq<Address>): (r: seq<seq<Route>>)
    ensures |r| == |tokens| && forall i :: 0 <= i < |tokens| ==> r[i] == Group(paths, tokens[i])
  {
    seq(|tokens|, (i: int) requires 0 <= i < |tokens| => Group(paths, tokens[i]))
  }

  function LargestFirst(): seq<Route> -> int {
    (group: seq<Route>) => -|group|
  }

  function All(): seq<Route> -> seq<Route> {
    (group: seq<Route>) => group
  }

  function Concat(chunks: seq<seq<Route>>): seq<Route> {
    FlatMap(chunks, All())
  }

  // Twice the score of the code, which takes half a point off for each pool shared.
  ghost function Score(chunk: seq<Route>, group: seq<Route>): int {
    2 * (|chunk| + |group|) - |ChunkPools(group) * ChunkPools(chunk)|
  }

  ghost function Scores(chunks: seq<seq<Route>>, group: seq<Route>): (r: seq<int>)
    ensures |r| == |chunks|
  {
    seq(|chunks|, i requires 0 <= i < |chunks| => Score(chunks[i], group))
  }

  // The first of the least among the first n scores.
  function FirstLeast(scores: seq<int>, n: nat): (b: nat)
    requires 0 < n <= |scores|
    ensures b < n
    ensures forall i :: 0 <= i < n ==> scores[b] <= scores[i]
    ensures forall i :: 0 <= i < b ==> scores[b] < scores[i]
  {
    if n == 1 then 0
    else
      var b := FirstLeast(scores, n - 1);
      if scores[n - 1] < scores[b] then n - 1 else b
  }

  ghost function BestOf(chunks: seq<seq<Route>>, group: seq<Route>): (b: nat)
    requires chunks != []
    ensures b < |chunks|
  {
    FirstLeast(Scores(chunks, group), |chunks|)
  }

  ghost function Give(chunks: seq<seq<Route>>, group: seq<Route>): seq<seq<Route>>
    requires chunks != []
  {
    var b := BestOf(chunks, group);
    chunks[b := chunks[b] + group]
  }

  ghost function Share(chunks: seq<seq<Route>>, groups: seq<seq<Route>>): seq<seq<Route>>
    requires chunks != []
    decreases |groups|
  {
    if groups == [] then chunks else Share(Give(chunks, groups[0]), groups[1..])
  }

  function NonEmpty(chunks: seq<seq<Route>>): seq<seq<Route>> {
    if chunks == [] then []
    else NonEmpty(chunks[..|chunks| - 1]) + (if chunks[|chunks| - 1] == [] then [] else [chunks[|chunks| - 1]])
  }

  function ChunkCount(paths: seq<Route>, workerCount: int): int {
    var least := if workerCount < |paths| then workerCount else |paths|;
    if least < 1 then 1 else least
  }

  function Blank(n: nat): (r: seq<seq<Route>>)
    ensures |r| == n && forall i :: 0 <= i < n ==> r[i] == []
  {
    seq(n, i => [])
  }

  ghost function Chunks(paths: seq<Route>, workerCount: int): seq<seq<Route>> {
    if paths == [] then []
    else if ChunkCount(paths, workerCount) == 1 then [paths]
    else
      var groups := StableSort(Groups(paths, Tokens(paths)), LargestFirst());
      NonEmpty(Share(Blank(ChunkCount(paths, workerCount)), groups))
  }

  // --- Nothing is lost, nothing is doubled ---

  lemma {:induction false} TokensOf(paths: seq<Route>)
    ensures Distinct(Tokens(paths))
    ensures forall t :: t in Tokens(paths) <==> exists r :: r in paths && r.startToken == t
  {
    if paths != [] {
      var rest, last := paths[..|paths| - 1], paths[|paths| - 1];
      TokensOf(rest);
      assert paths == rest + [last];
    }
  }

  lemma {:induction false} GroupIsOfToken(paths: seq<Route>, t: Address)
    ensures forall r :: r in Group(paths, t) <==> r in paths && r.startToken == t
  {
    if paths != [] {
      GroupIsOfToken(paths[..|paths| - 1], t);
      assert paths == paths[..|paths| - 1] + [paths[|paths| - 1]];
    }
  }

  lemma {:induction false} GroupsCover(paths: seq<Route>)
    ensures multiset(Concat(Groups(paths, Tokens(paths)))) == multiset(paths)
  {
    hide FlatMap;
    if paths == [] {
      FlatMapEnds(Groups(paths, []), All());
    } else {
      var rest, last := paths[..|paths| - 1], paths[|paths| - 1];
      GroupsCover(rest);
      TokensOf(rest);
      assert paths == rest + [last];
      if last.startToken in Tokens(rest) {
        OldTokenGroups(rest, last);
      } else {
        NewTokenGroups(rest, last);
      }
    }
  }

  lemma {:induction false} FreshToken(paths: seq<Route>, t: Address)
    requires t !in Tokens(paths)
    ensures Group(paths, t) == []
  {
    if paths != [] {
      FreshToken(paths[..|paths| - 1], t);
    }
  }

  lemma GroupSnoc(rest: seq<Route>, last: Route, t: Address)
    ensures Group(rest + [last], t) == Group(rest, t) + (if last.startToken == t then [last] else [])
  {
  }

  // A route of a token seen before joins that token's group.
  lemma OldTokenGroups(rest: seq<Route>, last: Route)
    requires last.startToken in Tokens(rest) && Distinct(Tokens(rest))
    ensures multiset(Concat(Groups(rest + [last], Tokens(rest + [last]))))
         == multiset(Concat(Groups(rest, Tokens(rest)))) + multiset{last}
  {
    hide FlatMap;
    var paths, tokens := rest + [last], Tokens(rest);
    assert paths[..|paths| - 1] == rest;
    var before := Groups(rest, tokens);
    var k :| 0 <= k < |tokens| && tokens[k] == last.startToken;
    var after := Groups(paths, tokens);
    forall i | 0 <= i < |tokens|
      ensures after[i] == if i == k then before[i] + [last] else before[i]
    {
      GroupSnoc(rest, last, tokens[i]);
    }
    assert after == before[k := before[k] + [last]];
    FlatMapReplace(before, k, before[k] + [last], [last], All());
  }

  // A route of a new token opens a group of its own.
  lemma NewTokenGroups(rest: seq<Route>, last: Route)
    requires last.startToken !in Tokens(rest)
    ensures multiset(Concat(Groups(rest + [last], Tokens(rest + [last]))))
         == multiset(Concat(Groups(rest, Tokens(rest)))) + multiset{last}
  {
    hide FlatMap;
    var paths, tokens := rest + [last], Tokens(rest);
    assert paths[..|paths| - 1] == rest;
    TokensOf(rest);
    FreshToken(rest, last.startToken);
    var after := Groups(paths, tokens + [last.startToken]);
    forall i | 0 <= i < |after|
      ensures after[i] == (Groups(rest, tokens) + [[last]])[i]
    {
      GroupSnoc(rest, last, (tokens + [last.startToken])[i]);
    }
    assert after == Groups(rest, tokens) + [[last]];
    FlatMapConcat(Groups(rest, tokens), [[last]], All());
    FlatMapOne([last], All());
  }

  lemma GiveCovers(chunks: seq<seq<Route>>, group: seq<Route>)
    requires chunks != []
    ensures |Give(chunks, group)| == |chunks|
    ensures multiset(Concat(Give(chunks, group))) == multiset(Concat(chunks)) + multiset(group)
  {
    hide FlatMap, BestOf;
    var b := BestOf(chunks, group);
    FlatMapReplace(chunks, b, chunks[b] + group, group, All());
  }

  lemma {:induction false} ShareCovers(chunks: seq<seq<Route>>, groups: seq<seq<Route>>)
    requires chunks != []
    ensures |Share(chunks, groups)| == |chunks|
    ensures multiset(Concat(Share(chunks, groups))) == multiset(Concat(chunks)) + multiset(Concat(groups))
    decreases |groups|
  {
    hide FlatMap, Give;
    if groups == [] {
      FlatMapEnds(groups, All());
    } else {
      GiveCovers(chunks, groups[0]);
      ShareCovers(Give(chunks, groups[0]), groups[1..]);
      assert groups == [groups[0]] + groups[1..];
      FlatMapConcat([groups[0]], groups[1..], All());
      FlatMapOne(groups[0], All());
    }
  }

  lemma {:induction false} BlanksHoldNothing(chunks: seq<seq<Route>>)
    requires forall i :: 0 <= i < |chunks| ==> chunks[i] == []
    ensures Concat(chunks) == []
  {
    if chunks != [] {
      BlanksHoldNothing(chunks[..|chunks| - 1]);
    }
  }

  lemma {:induction false} NonEmptyCovers(chunks: seq<seq<Route>>)
    ensures Concat(NonEmpty(chunks)) == Concat(chunks)
    ensures |NonEmpty(chunks)| <= |chunks|
    ensures forall c :: c in NonEmpty(chunks) <==> c in chunks && c != []
  {
    if chunks != [] {
      var rest, last := chunks[..|chunks| - 1], chunks[|chunks| - 1];
      NonEmptyCovers(rest);
      assert chunks == rest + [last];
      FlatMapConcat(NonEmpty(rest), [last], All());
      FlatMapOne(last, All());
      assert NonEmpty(rest) + [] == NonEmpty(rest);
    }
  }

  // --- One start token, one chunk ---

  ghost function Starts(chunk: seq<Route>): set<Address> {
    set r | r in chunk :: r.startToken
  }

  ghost predicate NoneShared(a: seq<Route>, b: seq<Route>) {
    Starts(a) !! Starts(b)
  }

  ghost predicate Apart(chunks: seq<seq<Route>>) {
    forall i, j :: 0 <= i < j < |chunks| ==> NoneShared(chunks[i], chunks[j])
  }

  ghost predicate Clear(chunk: seq<Route>, chunks: seq<seq<Route>>) {
    forall c :: c in chunks ==> NoneShared(chunk, c)
  }

  lemma ApartCons(chunk: seq<Route>, chunks: seq<seq<Route>>)
    ensures Apart([chunk] + chunks) <==> Apart(chunks) && Clear(chunk, chunks)
  {
    var all := [chunk] + chunks;
    if Apart(all) {
      forall i, j | 0 <= i < j < |chunks|
        ensures NoneShared(chunks[i], chunks[j])
      {
        assert all[i + 1] == chunks[i] && all[j + 1] == chunks[j];
      }
      forall c | c in chunks
        ensures NoneShared(chunk, c)
      {
        var k :| 0 <= k < |chunks| && chunks[k] == c;
        assert all[0] == chunk && all[k + 1] == c;
      }
    }
  }

  lemma {:induction false} InsertApart(groups: seq<seq<Route>>, x: seq<Route>)
    requires Apart(groups) && Clear(x, groups)
    ensures Apart(Insert(groups, x, LargestFirst()))
  {
    hide Apart, NoneShared;
    ApartCons(x, groups);
    if groups == [] {
      assert [x] + [] == [x];
    } else if LargestFirst()(x) >= LargestFirst()(groups[0]) {
      var w := LargestFirst();
      assert groups == [groups[0]] + groups[1..];
      ApartCons(groups[0], groups[1..]);
      InsertApart(groups[1..], x);
      InsertAdds(groups[1..], x, w);
      ClearEither(groups[0], x);
      ApartCons(groups[0], Insert(groups[1..], x, w));
    }
  }

  lemma ClearEither(a: seq<Route>, b: seq<Route>)
    ensures NoneShared(a, b) <==> NoneShared(b, a)
  {
  }

  lemma {:induction false} SortApart(groups: seq<seq<Route>>)
    requires Apart(groups)
    ensures Apart(StableSort(groups, LargestFirst()))
  {
    if groups != [] {
      var w := LargestFirst();
      var rest, last := groups[..|groups| - 1], groups[|groups| - 1];
      SortApart(rest);
      StableSortSorts(rest, w);
      forall c | c in StableSort(rest, w)
        ensures NoneShared(last, c)
      {
        assert c in multiset(rest);
        var k :| 0 <= k < |rest| && rest[k] == c;
        assert groups[k] == c;
      }
      InsertApart(StableSort(rest, w), last);
    }
  }

  lemma GroupsApart(paths: seq<Route>)
    ensures Apart(Groups(paths, Tokens(paths)))
  {
    var tokens := Tokens(paths);
    TokensOf(paths);
    forall i, j | 0 <= i < j < |tokens|
      ensures NoneShared(Group(paths, tokens[i]), Group(paths, tokens[j]))
    {
      GroupIsOfToken(paths, tokens[i]);
      GroupIsOfToken(paths, tokens[j]);
    }
  }

  lemma GiveApart(chunks: seq<seq<Route>>, group: seq<Route>)
    requires chunks != [] && Apart(chunks) && Clear(group, chunks)
    ensures Apart(Give(chunks, group))
    ensures forall c :: Clear(c, chunks) && NoneShared(c, group) ==> Clear(c, Give(chunks, group))
  {
    var b := BestOf(chunks, group);
    var given := Give(chunks, group);
    assert Starts(chunks[b] + group) == Starts(chunks[b]) + Starts(group);
    assert forall i :: 0 <= i < |chunks| && i != b ==> given[i] == chunks[i];
    hide NoneShared, BestOf;
    forall i, j | 0 <= i < j < |given|
      ensures NoneShared(given[i], given[j])
    {
      assert chunks[i] in chunks && chunks[j] in chunks;
    }
    forall c | Clear(c, chunks) && NoneShared(c, group)
      ensures Clear(c, given)
    {
      forall d | d in given
        ensures NoneShared(c, d)
      {
        var k :| 0 <= k < |given| && given[k] == d;
        assert chunks[k] in chunks;
      }
    }
  }

  lemma {:induction false} ShareApart(chunks: seq<seq<Route>>, groups: seq<seq<Route>>)
    requires chunks != [] && Apart(chunks) && Apart(groups) && forall g :: g in groups ==> Clear(g, chunks)
    ensures Apart(Share(chunks, groups))
    decreases |groups|
  {
    if groups != [] {
      hide NoneShared, Give;
      assert groups == [groups[0]] + groups[1..];
      ApartCons(groups[0], groups[1..]);
      GiveApart(chunks, groups[0]);
      forall g | g in groups[1..]
        ensures Clear(g, Give(chunks, groups[0]))
      {
        ClearEither(groups[0], g);
      }
      ShareApart(Give(chunks, groups[0]), groups[1..]);
    }
  }

  lemma {:induction false} NonEmptyApart(chunks: seq<seq<Route>>)
    requires Apart(chunks)
    ensures Apart(NonEmpty(chunks))
  {
    if chunks != [] {
      var rest, last := chunks[..|chunks| - 1], chunks[|chunks| - 1];
      NonEmptyApart(rest);
      NonEmptyCovers(rest);
      forall i | 0 <= i < |NonEmpty(rest)|
        ensures NoneShared(NonEmpty(rest)[i], last)
      {
        assert NonEmpty(rest)[i] in rest;
        var k :| 0 <= k < |rest| && rest[k] == NonEmpty(rest)[i];
        assert chunks[k] == rest[k];
      }
    }
  }

  // The chunks hold every route exactly as often as the batch does; none is empty, there are no more
  // than workers (or one), and the routes of one start token are all in one chunk.
  lemma ChunksShareOut(paths: seq<Route>, workerCount: int)
    ensures var chunks := Chunks(paths, workerCount);
            && multiset(Concat(chunks)) == multiset(paths)
            && (forall c :: c in chunks ==> c != [])
            && |chunks| <= (if workerCount <= 1 || |paths| <= 1 then 1 else if workerCount < |paths| then workerCount else |paths|)
            && Apart(chunks)
  {
    hide NoneShared, Share;
    if paths == [] {
    } else if ChunkCount(paths, workerCount) == 1 {
      FlatMapOne(paths, All());
    } else {
      var groups := Groups(paths, Tokens(paths));
      var sorted := StableSort(groups, LargestFirst());
      var blank := Blank(ChunkCount(paths, workerCount));
      GroupsCover(paths);
      StableSortSorts(groups, LargestFirst());
      FlatMapPermutes(sorted, groups, All());
      ShareCovers(blank, sorted);
      BlanksHoldNothing(blank);
      NonEmptyCovers(Share(blank, sorted));
      GroupsApart(paths);
      SortApart(groups);
      BlanksApart(blank, sorted);
      ShareApart(blank, sorted);
      NonEmptyApart(Share(blank, sorted));
    }
  }

  lemma BlanksApart(blank: seq<seq<Route>>, groups: seq<seq<Route>>)
    requires forall i :: 0 <= i < |blank| ==> blank[i] == []
    ensures Apart(blank) && forall g :: g in groups ==> Clear(g, blank)
  {
  }

  // --- The rule ---

  // Route k is the first of token t.
  predicate IsFirst(paths: seq<Route>, k: nat, t: Address) {
    k < |paths| && paths[k].startToken == t && forall q :: 0 <= q < k ==> paths[q].startToken != t
  }

  // The tokens come in the order in which they first start a route.
  lemma {:induction false} TokensAppear(paths: seq<Route>) returns (first: seq<nat>)
    ensures |first| == |Tokens(paths)| && forall i, j :: 0 <= i < j < |first| ==> first[i] < first[j]
    ensures forall i :: 0 <= i < |first| ==> IsFirst(paths, first[i], Tokens(paths)[i])
  {
    hide IsFirst;
    first := [];
    if paths != [] {
      var rest, last := paths[..|paths| - 1], paths[|paths| - 1];
      var before := TokensAppear(rest);
      assert paths == rest + [last];
      forall i | 0 <= i < |before|
        ensures before[i] < |rest| && IsFirst(paths, before[i], Tokens(rest)[i])
      {
        StaysFirst(rest, last, before[i], Tokens(rest)[i]);
      }
      first := before;
      if last.startToken !in Tokens(rest) {
        NewIsFirst(rest, last);
        first := before + [|rest|];
      }
    }
  }

  lemma StaysFirst(rest: seq<Route>, last: Route, k: nat, t: Address)
    requires IsFirst(rest, k, t)
    ensures k < |rest| && IsFirst(rest + [last], k, t)
  {
  }

  lemma NewIsFirst(rest: seq<Route>, last: Route)
    requires last.startToken !in Tokens(rest)
    ensures IsFirst(rest + [last], |rest|, last.startToken)
  {
    TokensOf(rest);
  }

  // The groups are shared out from the largest to the smallest.
  lemma GroupsFall(groups: seq<seq<Route>>)
    ensures var sorted := StableSort(groups, LargestFirst());
            && multiset(sorted) == multiset(groups)
            && forall i, j :: 0 <= i < j < |sorted| ==> |sorted[j]| <= |sorted[i]|
  {
    var w := LargestFirst();
    StableSortSorts(groups, w);
    var sorted := StableSort(groups, w);
    forall i, j | 0 <= i < j < |sorted|
      ensures |sorted[j]| <= |sorted[i]|
    {
      assert w(sorted[i]) <= w(sorted[j]);
    }
  }

  // Each goes to the first chunk for which twice the joint size, less the pools they share, is least.
  lemma GroupGoesToLeast(chunks: seq<seq<Route>>, group: seq<Route>) returns (b: nat)
    requires chunks != []
    ensures b < |chunks| && Give(chunks, group) == chunks[b := chunks[b] + group]
    ensures forall i :: 0 <= i < |chunks| ==>
              2 * (|chunks[b]| + |group|) - |ChunkPools(group) * ChunkPools(chunks[b])|
              <= 2 * (|chunks[i]| + |group|) - |ChunkPools(group) * ChunkPools(chunks[i])|
    ensures forall i :: 0 <= i < b ==>
              2 * (|chunks[b]| + |group|) - |ChunkPools(group) * ChunkPools(chunks[b])|
              < 2 * (|chunks[i]| + |group|) - |ChunkPools(group) * ChunkPools(chunks[i])|
  {
    hide ChunkPools;
    b := BestOf(chunks, group);
    var scores := Scores(chunks, group);
    assert forall i :: 0 <= i < |chunks| ==> scores[i] == Score(chunks[i], group);
  }

  // --- The code ---

  // A chunk under construction, with the pools its routes use.
  datatype Open = Open(paths: seq<Route>, pools: set<Address>) {
    ghost predicate Valid() { pools == ChunkPools(paths) }
  }

  function Paths(chunks: seq<Open>): (r: seq<seq<Route>>)
    ensures |r| == |chunks| && forall i :: 0 <= i < |r| ==> r[i] == chunks[i].paths
  {
    seq(|chunks|, i requires 0 <= i < |chunks| => chunks[i].paths)
  }

  method GroupByToken(paths: seq<Route>) returns (groups: seq<seq<Route>>)
    ensures groups == Groups(paths, Tokens(paths))
  {
    var order: seq<Address> := [];
    var byToken: map<Address, seq<Route>> := map[];
    for i := 0 to |paths|
      invariant order == Tokens(paths[..i])
      invariant forall t :: t in byToken <==> t in order
      invariant forall t :: t in byToken ==> byToken[t] == Group(paths[..i], t)
    {
      var token := paths[i].startToken;
      ghost var was := byToken;
      assert paths[..i + 1] == paths[..i] + [paths[i]];
      assert paths[..i + 1][..i] == paths[..i];
      if token !in byToken {
        FreshToken(paths[..i], token);
        order := order + [token];
        byToken := byToken[token := []];
      }
      byToken := byToken[token := byToken[token] + [paths[i]]];
      forall t | t in byToken
        ensures byToken[t] == Group(paths[..i + 1], t)
      {
        GroupSnoc(paths[..i], paths[i], t);
      }
    }
    assert paths[..|paths|] == paths;
    groups := seq(|order|, i requires 0 <= i < |order| => byToken[order[i]]);
  }

  // The chunk a group goes to.
  method PickChunk(chunks: seq<Open>, groupPaths: seq<Route>, groupPools: set<Address>) returns (best: nat)
    requires chunks != [] && groupPools == ChunkPools(groupPaths) && forall c :: c in chunks ==> c.Valid()
    ensures best < |chunks| && best == BestOf(Paths(chunks), groupPaths)
  {
    hide ChunkPools, Score;
    best := 0;
    ghost var scores := Scores(Paths(chunks), groupPaths);
    var bestScore := 2 * (|chunks[0].paths| + |groupPaths|) - |groupPools * chunks[0].pools|;
    assert chunks[0].Valid() && bestScore == scores[0] by {
      assert bestScore == Score(chunks[0].paths, groupPaths) by { ScoreIs(chunks[0], groupPaths); }
    }
    for i := 1 to |chunks|
      invariant best < i && best == FirstLeast(scores, i) && bestScore == scores[best]
    {
      assert chunks[i] in chunks;
      ScoreIs(chunks[i], groupPaths);
      var score := 2 * (|chunks[i].paths| + |groupPaths|) - |groupPools * chunks[i].pools|;
      if score < bestScore {
        best, bestScore := i, score;
      }
    }
  }

  lemma ScoreIs(chunk: Open, group: seq<Route>)
    requires chunk.Valid()
    ensures Score(chunk.paths, group) == 2 * (|chunk.paths| + |group|) - |ChunkPools(group) * chunk.pools|
  {
  }

  lemma PoolsOfBoth(a: seq<Route>, b: seq<Route>)
    ensures ChunkPools(a + b) == ChunkPools(a) + ChunkPools(b)
  {
  }

  method BuildEvaluationChunks(paths: seq<Route>, workerCount: int) returns (result: seq<seq<Route>>)
    ensures result == Chunks(paths, workerCount)
  {
    hide Share, NonEmpty, Groups, StableSort, Blank;
    if |paths| == 0 {
      return [];
    }
    var chunkCount := ChunkCount(paths, workerCount);
    if chunkCount == 1 {
      return [paths];
    }
    var groups := GroupByToken(paths);
    groups := StableSort(groups, LargestFirst());
    var chunks := ShareOut(chunkCount, groups);
    result := DropEmpty(chunks);
  }

  // Every group to its best chunk.
  method ShareOut(chunkCount: nat, groups: seq<seq<Route>>) returns (shared: seq<seq<Route>>)
    requires 0 < chunkCount
    ensures shared == Share(Blank(chunkCount), groups)
  {
    hide ChunkPools, Open.Valid, BestOf;
    var chunks := seq(chunkCount, i => Open([], {}));
    BlankIsValid();
    assert Paths(chunks) == Blank(chunkCount);
    for g := 0 to |groups|
      invariant |chunks| == chunkCount && forall c :: c in chunks ==> c.Valid()
      invariant Share(Paths(chunks), groups[g..]) == Share(Blank(chunkCount), groups)
    {
      var group := groups[g];
      var pools := PoolsOf(group);
      var best := PickChunk(chunks, group, pools);
      var grown := Open(chunks[best].paths + group, chunks[best].pools + pools);
      GrownIsValid(chunks[best], group, grown);
      ghost var before := Paths(chunks);
      chunks := chunks[best := grown];
      assert Paths(chunks) == Give(before, group);
      assert groups[g..][1..] == groups[g + 1..];
    }
    shared := Paths(chunks);
  }

  method DropEmpty(chunks: seq<seq<Route>>) returns (result: seq<seq<Route>>)
    ensures result == NonEmpty(chunks)
  {
    result := [];
    for i := 0 to |chunks|
      invariant result == NonEmpty(chunks[..i])
    {
      assert chunks[..i + 1][..i] == chunks[..i];
      if |chunks[i]| > 0 {
        result := result + [chunks[i]];
      }
    }
    assert chunks[..|chunks|] == chunks;
  }

  lemma BlankIsValid()
    ensures Open([], {}).Valid()
  {
  }

  lemma GrownIsValid(chunk: Open, group: seq<Route>, grown: Open)
    requires chunk.Valid() && grown == Open(chunk.paths + group, chunk.pools + ChunkPools(group))
    ensures grown.Valid()
  {
  }

  // The pools of a group, as the code collects them edge by edge.
  method PoolsOf(group: seq<Route>) returns (pools: set<Address>)
    ensures pools == ChunkPools(group)
  {
    pools := {};
    for i := 0 to |group|
      invariant pools == ChunkPools(group[..i])
    {
      pools := pools + set h | h in group[i].hops :: h.leg.pool;
      assert group[..i + 1] == group[..i] + [group[i]];
      PoolsOfBoth(group[..i], [group[i]]);
      assert ChunkPools([group[i]]) == HopPools(group[i].hops);
    }
    assert group[..|group|] == group;
  }
}
