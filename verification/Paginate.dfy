/** src/hypersync/paginate.ts: fetching a block range page by page, the server deciding how far each page reaches. */
module Paginate {
  import opened IntMath
  import opened Outcomes
  import opened Sequences

  const DEFAULT_MAX_PAGES: int := 10_000

  datatype Query = Query(fromBlock: int, toBlock: Option<int>)
  datatype Response<L> = Response(archiveHeight: Option<int>, logs: seq<L>, nextBlock: int)

  // The server, by number of the call and first block asked for; nothing is asked of it.
  type Server<!L> = (nat, int) -> Response<L>

  datatype PageResult<L> = PageResult(logs: seq<L>, archiveHeight: Option<int>, nextBlock: int, pages: nat)

  // One page: asked for from `from`, taken to reach up to `next`.
  datatype Page<L> = Page(from: int, next: int, logs: seq<L>)

  predicate IsBlock(value: int) {
    0 <= value <= MAX_SAFE_INTEGER
  }

  function ParseBlock(name: string, value: int): Result<int> {
    if IsBlock(value) then Ok(value) else Err("HyperSync " + name + " must be a finite non-negative safe integer.")
  }

  function ParseOptionalBlock(name: string, value: Option<int>): Result<Option<int>> {
    if value.None? then Ok(None)
    else
      var v :- ParseBlock(name, value.value);
      Ok(Some(v))
  }

  function Clamp(toBlock: Option<int>, nextBlock: int): int {
    if toBlock.Some? && nextBlock > toBlock.value then toBlock.value else nextBlock
  }

  function Target(toBlock: Option<int>, nextBlock: int, archiveHeight: Option<int>): int {
    if toBlock.Some? then toBlock.value else if archiveHeight.Some? then archiveHeight.value else nextBlock
  }

  // The last block of a bounded range, empty, with a cursor that does not advance, counts as reached.
  predicate IsTerminal(toBlock: Option<int>, from: int, nextBlock: int, logCount: nat) {
    toBlock.Some? && nextBlock == from && logCount == 0 && from + 1 >= toBlock.value
  }

  // The loop variables.
  datatype Cursor<L> = Cursor(from: int, logs: seq<L>, archiveHeight: Option<int>, pages: nat)

  // One turn of the loop: another page is needed, the range is done, or the call throws.
  datatype Turn<L> = More(next: Cursor<L>) | Done(result: PageResult<L>) | Threw(reason: string)

  function TakeTurn<L>(server: Server<L>, toBlock: Option<int>, maxPages: int, c: Cursor<L>): Turn<L> {
    if !IsBlock(c.from) then Threw("page fromBlock")
    else if c.pages >= maxPages then Threw("pagination exceeded maxPages before reaching a terminal cursor")
    else
      var res := server(c.pages, c.from);
      if res.archiveHeight.Some? && !IsBlock(res.archiveHeight.value) then Threw("response archiveHeight")
      else if !IsBlock(res.nextBlock) then Threw("response nextBlock cursor")
      else
        var height := if res.archiveHeight.Some? then res.archiveHeight else c.archiveHeight;
        var logs := c.logs + res.logs;
        var next := Clamp(toBlock, res.nextBlock);
        if IsTerminal(toBlock, c.from, res.nextBlock, |res.logs|) then
          Done(PageResult(logs, height, toBlock.value, c.pages + 1))
        else if height.None? && toBlock.None? && next == c.from then Threw("stalled without archive height")
        else if res.nextBlock < c.from then Threw("cursor regressed")
        else if next == c.from then
          if Target(toBlock, next, height) <= c.from then Done(PageResult(logs, height, next, c.pages + 1))
          else Threw("cursor stalled")
        else if next >= Target(toBlock, next, height) then Done(PageResult(logs, height, next, c.pages + 1))
        else More(Cursor(next, logs, height, c.pages + 1))
  }

  function Loop<L>(server: Server<L>, toBlock: Option<int>, maxPages: int, c: Cursor<L>): Result<PageResult<L>>
    decreases maxPages - c.pages
  {
    match TakeTurn(server, toBlock, maxPages, c)
    case More(next) => Loop(server, toBlock, maxPages, next)
    case Done(result) => Ok(result)
    case Threw(reason) => Err(reason)
  }

  function ParseMaxPages(maxPages: Option<int>): Result<int> {
    if maxPages.None? then Ok(DEFAULT_MAX_PAGES)
    else if maxPages.value <= 0 || maxPages.value > MAX_SAFE_INTEGER then
      Err("HyperSync pagination maxPages must be a finite positive safe integer.")
    else Ok(maxPages.value)
  }

  function Fetch<L>(server: Server<L>, query: Query, maxPages: Option<int>): Result<PageResult<L>> {
    var from :- ParseBlock("query fromBlock", query.fromBlock);
    var toBlock :- ParseOptionalBlock("query toBlock", query.toBlock);
    if toBlock.Some? && toBlock.value < from then Err("HyperSync query has invalid block range")
    else
      var limit :- ParseMaxPages(maxPages);
      if toBlock == Some(from) then Ok(PageResult([], None, from, 0))
      else Loop(server, toBlock, limit, Cursor(from, [], None, 0))
  }

  method FetchAllLogsWithClient<L>(server: Server<L>, query: Query, maxPages: Option<int>) returns (r: Result<PageResult<L>>)
    ensures r == Fetch(server, query, maxPages)
  {
    hide Loop, ParseMaxPages;
    var initialFromBlock :- ParseBlock("query fromBlock", query.fromBlock);
    var toBlock :- ParseOptionalBlock("query toBlock", query.toBlock);
    if toBlock.Some? && toBlock.value < initialFromBlock {
      return Err("HyperSync query has invalid block range");
    }
    var limit :- ParseMaxPages(maxPages);
    if toBlock.Some? && toBlock.value == initialFromBlock {
      return Ok(PageResult([], None, initialFromBlock, 0));
    }
    r := FetchPages(server, toBlock, limit, initialFromBlock);
  }

  method FetchPages<L>(server: Server<L>, toBlock: Option<int>, limit: int, initialFromBlock: int) returns (r: Result<PageResult<L>>)
    ensures r == Loop(server, toBlock, limit, Cursor(initialFromBlock, [], None, 0))
  {
    hide IsBlock, Clamp, Target;
    var allLogs: seq<L> := [];
    var from := initialFromBlock;
    var archiveHeight: Option<int> := None;
    var pages := 0;
    ghost var start := Cursor(from, allLogs, archiveHeight, pages);
    while true
      invariant 0 <= pages
      invariant Loop(server, toBlock, limit, Cursor(from, allLogs, archiveHeight, pages)) == Loop(server, toBlock, limit, start)
      decreases limit - pages
    {
      ghost var c := Cursor(from, allLogs, archiveHeight, pages);
      if !IsBlock(from) {
        return Err("page fromBlock");
      }
      if pages >= limit {
        return Err("pagination exceeded maxPages before reaching a terminal cursor");
      }
      var res := server(pages, from);
      pages := pages + 1;
      if res.archiveHeight.Some? {
        if !IsBlock(res.archiveHeight.value) {
          return Err("response archiveHeight");
        }
        archiveHeight := res.archiveHeight;
      }
      allLogs := allLogs + res.logs;
      if !IsBlock(res.nextBlock) {
        return Err("response nextBlock cursor");
      }
      var nextBlock := Clamp(toBlock, res.nextBlock);
      if IsTerminal(toBlock, from, res.nextBlock, |res.logs|) {
        return Ok(PageResult(allLogs, archiveHeight, toBlock.value, pages));
      }
      if archiveHeight.None? && toBlock.None? && nextBlock == from {
        return Err("stalled without archive height");
      }
      var targetEnd := Target(toBlock, nextBlock, archiveHeight);
      if res.nextBlock < from {
        return Err("cursor regressed");
      }
      if nextBlock == from {
        if targetEnd <= from {
          return Ok(PageResult(allLogs, archiveHeight, nextBlock, pages));
        }
        return Err("cursor stalled");
      }
      if nextBlock >= targetEnd {
        return Ok(PageResult(allLogs, archiveHeight, nextBlock, pages));
      }
      assert TakeTurn(server, toBlock, limit, c) == More(Cursor(nextBlock, allLogs, archiveHeight, pages));
      from := nextBlock;
    }
  }

  // --- The pages of a run ---

  function PageOf<L>(server: Server<L>, toBlock: Option<int>, maxPages: int, c: Cursor<L>): Page<L> {
    var res := server(c.pages, c.from);
    match TakeTurn(server, toBlock, maxPages, c)
    case More(next) => Page(c.from, next.from, res.logs)
    case Done(result) => Page(c.from, result.nextBlock, res.logs)
    case Threw(_) => Page(c.from, c.from, [])
  }

  // The pages asked for from a cursor on.
  function Pages<L>(server: Server<L>, toBlock: Option<int>, maxPages: int, c: Cursor<L>): seq<Page<L>>
    decreases maxPages - c.pages
  {
    var page := PageOf(server, toBlock, maxPages, c);
    match TakeTurn(server, toBlock, maxPages, c)
    case More(next) => [page] + Pages(server, toBlock, maxPages, next)
    case Done(_) => [page]
    case Threw(_) => []
  }

  // Page after page without gap or overlap, from `from` up to `next`; every page but the last reaches
  // further than it starts.
  predicate Tile<L>(pages: seq<Page<L>>, from: int, next: int)
    decreases |pages|
  {
    if pages == [] then from == next
    else
      && pages[0].from == from <= pages[0].next
      && (|pages| > 1 ==> from < pages[0].next)
      && Tile(pages[1..], pages[0].next, next)
  }

  function LogsOf<L>(): Page<L> -> seq<L> {
    (page: Page<L>) => page.logs
  }

  lemma LogsCons<L>(page: Page<L>, pages: seq<Page<L>>)
    ensures FlatMap([page] + pages, LogsOf()) == page.logs + FlatMap(pages, LogsOf())
  {
    FlatMapConcat([page], pages, LogsOf());
    FlatMapOne(page, LogsOf());
  }

  // A turn moves forward within the bound.
  lemma TurnAdvances<L>(server: Server<L>, toBlock: Option<int>, maxPages: int, c: Cursor<L>)
    requires toBlock.Some? ==> c.from < toBlock.value
    ensures match TakeTurn(server, toBlock, maxPages, c)
            case More(next) =>
              && c.from < next.from && (toBlock.Some? ==> next.from < toBlock.value)
              && next.logs == c.logs + server(c.pages, c.from).logs && next.pages == c.pages + 1 <= maxPages
            case Done(result) =>
              && result.logs == c.logs + server(c.pages, c.from).logs && result.pages == c.pages + 1
              && c.from <= result.nextBlock && (toBlock.Some? ==> result.nextBlock == toBlock.value)
              && (toBlock.None? && result.archiveHeight.Some? ==> result.archiveHeight.value <= result.nextBlock)
            case Threw(_) => true
  {
  }

  // Exactly when a turn throws, asks for more or is done. The cursor must not go back; standing still is
  // an end for the last block of a bounded range if it is empty, and for an unbounded range at or beyond
  // the archive height.
  lemma TurnIsExact<L>(server: Server<L>, toBlock: Option<int>, maxPages: int, c: Cursor<L>)
    requires toBlock.Some? ==> c.from < toBlock.value
    ensures var res, last := server(c.pages, c.from), 9_007_199_254_740_991;
            var height := if res.archiveHeight.Some? then res.archiveHeight else c.archiveHeight;
            var reached := if toBlock.Some? && toBlock.value < res.nextBlock then toBlock.value else res.nextBlock;
            var sane := && 0 <= c.from <= last && c.pages < maxPages && 0 <= res.nextBlock <= last
                        && (res.archiveHeight.Some? ==> 0 <= res.archiveHeight.value <= last);
            var rests := res.nextBlock == c.from
                         && (if toBlock.Some? then res.logs == [] && c.from + 1 == toBlock.value
                             else height.Some? && height.value <= c.from);
            match TakeTurn(server, toBlock, maxPages, c)
            case Threw(_) => !sane || (res.nextBlock <= c.from && !rests)
            case More(next) =>
              && sane && c.from < reached && (if toBlock.Some? then reached < toBlock.value else height.Some? && reached < height.value)
              && next == Cursor(reached, c.logs + res.logs, height, c.pages + 1)
            case Done(result) =>
              && sane
              && (rests || (c.from < reached && (toBlock.Some? ==> reached == toBlock.value)
                            && (toBlock.None? && height.Some? ==> height.value <= reached)))
              && result == PageResult(c.logs + res.logs, height, if rests && toBlock.Some? then toBlock.value else reached, c.pages + 1)
  {
  }

  // What a fetch checks first, and the allowance of ten thousand pages when none is given.
  lemma FetchChecksFirst<L>(server: Server<L>, query: Query, maxPages: Option<int>)
    ensures var last := 9_007_199_254_740_991;
            var r, sane := Fetch(server, query, maxPages),
                           && 0 <= query.fromBlock <= last
                           && (query.toBlock.Some? ==> query.fromBlock <= query.toBlock.value <= last)
                           && (maxPages.Some? ==> 0 < maxPages.value <= last);
            && (!sane ==> r.Err?)
            && (sane && query.toBlock == Some(query.fromBlock) ==> r == Ok(PageResult([], None, query.fromBlock, 0)))
            && (sane && query.toBlock != Some(query.fromBlock) ==>
                  r == Loop(server, query.toBlock, if maxPages.Some? then maxPages.value else 10_000,
                            Cursor(query.fromBlock, [], None, 0)))
  {
    hide Loop;
  }

  // A run that returns has asked for pages that tile the range from its first block to its cursor, and
  // returns their logs in order. A bounded run ends at its bound after at most one page a block; an
  // unbounded one at or beyond the archive height it was told.
  lemma {:induction false} LoopTiles<L>(server: Server<L>, toBlock: Option<int>, maxPages: int, c: Cursor<L>)
    requires toBlock.Some? ==> c.from < toBlock.value
    ensures var r, pages := Loop(server, toBlock, maxPages, c), Pages(server, toBlock, maxPages, c);
            r.Ok? ==>
              && Tile(pages, c.from, r.value.nextBlock)
              && r.value.logs == c.logs + FlatMap(pages, LogsOf()) && r.value.pages == c.pages + |pages|
              && (toBlock.Some? ==> r.value.nextBlock == toBlock.value && |pages| <= toBlock.value - c.from)
              && (toBlock.None? && r.value.archiveHeight.Some? ==> r.value.archiveHeight.value <= r.value.nextBlock)
    decreases maxPages - c.pages
  {
    hide FlatMap, TakeTurn;
    TurnAdvances(server, toBlock, maxPages, c);
    var page := PageOf(server, toBlock, maxPages, c);
    match TakeTurn(server, toBlock, maxPages, c)
    case More(next) =>
      LoopTiles(server, toBlock, maxPages, next);
      LogsCons(page, Pages(server, toBlock, maxPages, next));
    case Done(_) =>
      FlatMapOne(page, LogsOf());
      assert Tile<L>([], page.next, page.next);
    case Threw(_) =>
  }

  // The pages of a whole fetch.
  function FetchedPages<L>(server: Server<L>, query: Query, maxPages: Option<int>): seq<Page<L>> {
    if query.toBlock == Some(query.fromBlock) || ParseMaxPages(maxPages).Err? then []
    else Pages(server, query.toBlock, ParseMaxPages(maxPages).value, Cursor(query.fromBlock, [], None, 0))
  }

  lemma FetchTiles<L>(server: Server<L>, query: Query, maxPages: Option<int>)
    ensures var r, pages := Fetch(server, query, maxPages), FetchedPages(server, query, maxPages);
            r.Ok? ==>
              && Tile(pages, query.fromBlock, r.value.nextBlock) && query.fromBlock <= r.value.nextBlock
              && r.value.logs == FlatMap(pages, LogsOf()) && r.value.pages == |pages|
              && (query.toBlock.Some? ==> r.value.nextBlock == query.toBlock.value)
              && (query.toBlock.Some? ==> |pages| <= query.toBlock.value - query.fromBlock)
              && (query.toBlock.None? && r.value.archiveHeight.Some? ==>
                    r.value.archiveHeight.value <= r.value.nextBlock)
  {
    hide FlatMap, Loop, Pages;
    var r := Fetch(server, query, maxPages);
    if r.Ok? {
      if query.toBlock == Some(query.fromBlock) {
        NoLogs<L>();
      } else {
        var start: Cursor<L> := Cursor(query.fromBlock, [], None, 0);
        LoopTiles(server, query.toBlock, ParseMaxPages(maxPages).value, start);
        TileOrder(FetchedPages(server, query, maxPages), query.fromBlock, r.value.nextBlock);
      }
    }
  }

  lemma NoLogs<L>()
    ensures FlatMap([], LogsOf<L>()) == []
  {
  }

  lemma {:induction false} TileOrder<L>(pages: seq<Page<L>>, from: int, next: int)
    requires Tile(pages, from, next)
    ensures from <= next
    decreases |pages|
  {
    if pages != [] {
      TileOrder(pages[1..], pages[0].next, next);
    }
  }

  // Every block of the range is in exactly one page.
  lemma {:induction false} TileCoversOnce<L>(pages: seq<Page<L>>, from: int, next: int, block: int)
    requires Tile(pages, from, next) && from <= block < next
    ensures exists k :: 0 <= k < |pages| && pages[k].from <= block < pages[k].next
    ensures forall k, l :: 0 <= k < l < |pages| ==>
              !(pages[k].from <= block < pages[k].next && pages[l].from <= block < pages[l].next)
    decreases |pages|
  {
    var rest := pages[1..];
    TileOrder(rest, pages[0].next, next);
    if pages[0].next <= block {
      TileCoversOnce(rest, pages[0].next, next, block);
      var k :| 0 <= k < |rest| && rest[k].from <= block < rest[k].next;
      assert pages[k + 1] == rest[k];
      forall k, l | 0 <= k < l < |pages|
        ensures !(pages[k].from <= block < pages[k].next && pages[l].from <= block < pages[l].next)
      {
        if k > 0 {
          assert pages[k] == rest[k - 1] && pages[l] == rest[l - 1];
        }
      }
    } else {
      assert pages[0].from <= block < pages[0].next;
      forall l | 1 <= l < |pages|
        ensures block < pages[l].from
      {
        TileStartsLater(rest, pages[0].next, next, l - 1);
      }
    }
  }

  lemma {:induction false} TileStartsLater<L>(pages: seq<Page<L>>, from: int, next: int, k: nat)
    requires Tile(pages, from, next) && k < |pages|
    ensures from <= pages[k].from
    decreases |pages|
  {
    if k > 0 {
      TileStartsLater(pages[1..], pages[0].next, next, k - 1);
    }
  }

  lemma PagesLeft<L>(server: Server<L>, toBlock: Option<int>, maxPages: int, c: Cursor<L>)
    requires IsBlock(c.from) && c.pages < maxPages
    ensures TakeTurn(server, toBlock, maxPages, c)
            != Threw("pagination exceeded maxPages before reaching a terminal cursor")
  {
  }

  // A bounded fetch whose pages may be as many as its blocks never runs out of pages.
  lemma {:induction false} NeverOutOfPages<L>(server: Server<L>, toBlock: int, maxPages: int, c: Cursor<L>)
    requires 0 <= c.from < toBlock && toBlock - c.from <= maxPages - c.pages && toBlock <= MAX_SAFE_INTEGER
    ensures Loop(server, Some(toBlock), maxPages, c)
            != Err("pagination exceeded maxPages before reaching a terminal cursor")
    decreases toBlock - c.from
  {
    hide TakeTurn;
    TurnAdvances(server, Some(toBlock), maxPages, c);
    PagesLeft(server, Some(toBlock), maxPages, c);
    var turn := TakeTurn(server, Some(toBlock), maxPages, c);
    if turn.More? {
      NeverOutOfPages(server, toBlock, maxPages, turn.next);
    }
  }
}
