/** src/discovery/discover.ts: where a scan starts, how far it reaches, and where the next one resumes. */
module Discovery {
  import opened IntMath
  import opened Outcomes
  import opened Paginate

  function ToBlock(chainHeight: Option<int>): Option<int> {
    if chainHeight.None? || chainHeight.value < 0 then None else Some(chainHeight.value + 1)
  }

  function CheckpointFrom(nextBlock: int, fallbackFromBlock: int): int {
    if nextBlock > 0 then nextBlock - 1
    else if fallbackFromBlock - 1 > 0 then fallbackFromBlock - 1 else 0
  }

  function StartBlock(protocolStart: Option<int>): int {
    if protocolStart.Some? && IsBlock(protocolStart.value) then protocolStart.value else 0
  }

  predicate HasCheckpoint(checkpoint: Option<int>) {
    checkpoint.Some? && IsBlock(checkpoint.value)
  }

  // A protocol without pools whose checkpoint lies at or beyond its start is scanned again in full.
  predicate ShouldBackfill(start: int, checkpoint: Option<int>, poolCount: nat) {
    HasCheckpoint(checkpoint) && poolCount == 0 && checkpoint.value >= start
  }

  function FromBlock(protocolStart: Option<int>, checkpoint: Option<int>, poolCount: nat): int {
    var start := StartBlock(protocolStart);
    if ShouldBackfill(start, checkpoint, poolCount) then start
    else if HasCheckpoint(checkpoint) && checkpoint.value + 1 > start then checkpoint.value + 1
    else start
  }

  // Where a scan starts, spelled out: the protocol's first block, or the one after a checkpoint that
  // lies at or beyond it; a protocol without pools is scanned again from its first block.
  lemma StartIsExact(protocolStart: Option<int>, checkpoint: Option<int>, poolCount: nat)
    ensures var last := 9_007_199_254_740_991;
            var start := if protocolStart.Some? && 0 <= protocolStart.value <= last then protocolStart.value else 0;
            FromBlock(protocolStart, checkpoint, poolCount)
            == if checkpoint.Some? && start <= checkpoint.value <= last && 0 <= checkpoint.value && 0 < poolCount
               then checkpoint.value + 1 else start
  {
  }

  // How far it reaches: past the chain height, if there is one, and otherwise as far as the server goes.
  lemma EndIsExact(chainHeight: Option<int>)
    ensures chainHeight.Some? && 0 <= chainHeight.value ==> ToBlock(chainHeight) == Some(chainHeight.value + 1)
    ensures chainHeight.None? || chainHeight.value < 0 ==> ToBlock(chainHeight) == None
  {
  }

  // One scan: fetch from where the checkpoint says, up to the chain height, and save the new checkpoint.
  datatype Scan<!L> = Scan(chainHeight: Option<int>, server: Server<L>, poolCount: nat)

  function QueryOf<L>(protocolStart: Option<int>, checkpoint: Option<int>, s: Scan<L>): Query {
    Query(FromBlock(protocolStart, checkpoint, s.poolCount), ToBlock(s.chainHeight))
  }

  // The block a scan started at, its pages, the cursor it reached and the checkpoint it saved.
  datatype Scanned<L> = Scanned(from: int, pages: seq<Page<L>>, next: int, checkpoint: int)

  function RunScan<L>(protocolStart: Option<int>, checkpoint: Option<int>, s: Scan<L>): Result<Scanned<L>> {
    var query := QueryOf(protocolStart, checkpoint, s);
    var r :- Fetch(s.server, query, None);
    Ok(Scanned(query.fromBlock, FetchedPages(s.server, query, None), r.nextBlock, CheckpointFrom(r.nextBlock, query.fromBlock)))
  }

  // Scan after scan, each from the checkpoint of the one before, until one throws.
  function RunScans<L>(protocolStart: Option<int>, checkpoint: Option<int>, scans: seq<Scan<L>>): Result<seq<Scanned<L>>>
    decreases |scans|
  {
    if scans == [] then Ok([])
    else
      var first :- RunScan(protocolStart, checkpoint, scans[0]);
      var rest :- RunScans(protocolStart, Some(first.checkpoint), scans[1..]);
      Ok([first] + rest)
  }

  // Where the scan after one that started at `from` and reached `next` resumes. It is `next`, with two
  // exceptions: a protocol still without pools is scanned again from its start, and a cursor of zero
  // is saved as checkpoint zero, which leaves block zero out.
  lemma ResumeIsExact(protocolStart: Option<int>, from: int, next: int, poolCount: nat)
    requires StartBlock(protocolStart) <= from <= next <= MAX_SAFE_INTEGER
    ensures var start := StartBlock(protocolStart);
            var resumed := FromBlock(protocolStart, Some(CheckpointFrom(next, from)), poolCount);
            && resumed == (if poolCount == 0 then start else if next == 0 then 1 else next)
            && (resumed == next <==> if poolCount == 0 then next == start else next > 0)
  {
  }

  // It happens: a first scan without a chain height, of an archive that has reached only block zero,
  // ends on cursor zero having covered nothing, and once there are pools the next one starts at block one.
  lemma BlockZeroIsLeftOut()
    ensures var server: Server<int> := (page, from) => Response(Some(0), [], 0);
            && RunScan(None, None, Scan(None, server, 0)) == Ok(Scanned(0, [Page(0, 0, [])], 0, 0))
            && FromBlock(None, Some(0), 1) == 1
  {
    var server: Server<int> := (page, from) => Response(Some(0), [], 0);
    assert TakeTurn(server, None, DEFAULT_MAX_PAGES, Cursor(0, [], None, 0)) == Done(PageResult([], Some(0), 0, 1));
  }

  // A scan covers the blocks from its start up to its cursor, page by page.
  lemma ScanTiles<L>(protocolStart: Option<int>, checkpoint: Option<int>, s: Scan<L>)
    ensures var r := RunScan(protocolStart, checkpoint, s);
            r.Ok? ==>
              && Tile(r.value.pages, r.value.from, r.value.next)
              && StartBlock(protocolStart) <= r.value.from <= r.value.next
              && r.value.checkpoint == CheckpointFrom(r.value.next, r.value.from)
              && (s.chainHeight.Some? && s.chainHeight.value >= 0 ==> r.value.next == s.chainHeight.value + 1)
  {
    hide Fetch, FetchedPages, Tile;
    FetchTiles(s.server, QueryOf(protocolStart, checkpoint, s), None);
  }

  // Successive bounded scans of a protocol that has pools by its second scan tile the chain: the first
  // starts where its checkpoint says, every other where the one before it ended, each covers its blocks
  // without gap or overlap, and each reaches the chain height it was given.
  lemma {:induction false} ScansTileTheChain<L>(protocolStart: Option<int>, checkpoint: Option<int>, scans: seq<Scan<L>>)
    requires forall i :: 0 < i < |scans| ==> scans[i].poolCount > 0
    requires forall i :: 0 <= i < |scans| ==>
               scans[i].chainHeight.Some? && 0 <= scans[i].chainHeight.value < MAX_SAFE_INTEGER
    ensures var r := RunScans(protocolStart, checkpoint, scans);
            r.Ok? ==>
              && |r.value| == |scans|
              && (scans != [] ==> r.value[0].from == FromBlock(protocolStart, checkpoint, scans[0].poolCount))
              && (forall i :: 0 < i < |scans| ==> r.value[i].from == r.value[i - 1].next)
              && (forall i :: 0 <= i < |scans| ==>
                    && Tile(r.value[i].pages, r.value[i].from, r.value[i].next)
                    && r.value[i].next == scans[i].chainHeight.value + 1)
    decreases |scans|
  {
    hide RunScan, Tile;
    var r := RunScans(protocolStart, checkpoint, scans);
    if scans != [] && r.Ok? {
      var first := RunScan(protocolStart, checkpoint, scans[0]).value;
      ScanTiles(protocolStart, checkpoint, scans[0]);
      ScanStarts(protocolStart, checkpoint, scans[0]);
      ScansTileTheChain(protocolStart, Some(first.checkpoint), scans[1..]);
      var rest := RunScans(protocolStart, Some(first.checkpoint), scans[1..]).value;
      if |scans| > 1 {
        ResumeIsExact(protocolStart, first.from, first.next, scans[1].poolCount);
      }
      assert r.value == [first] + rest;
    }
  }

  lemma ScanStarts<L>(protocolStart: Option<int>, checkpoint: Option<int>, s: Scan<L>)
    ensures var r := RunScan(protocolStart, checkpoint, s);
            r.Ok? ==> r.value.from == FromBlock(protocolStart, checkpoint, s.poolCount)
  {
  }
}
