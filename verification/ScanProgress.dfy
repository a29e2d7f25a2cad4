/** How far the scans get: finished chunks tile the scanned range, and checkpoints only grow. Like the
    table results, these hold under every configuration. */
module ScanProgress {
  import opened Wrappers
  import opened Chain
  import opened Projection
  import opened IndexerMachine

  function ChunksOf(chunks: seq<Chunk>, c: Contract): seq<Chunk> {
    if chunks == [] then [] else
    var kept, last := ChunksOf(chunks[..|chunks| - 1], c), chunks[|chunks| - 1];
    if last.contract == c then kept + [last] else kept
  }

  /** As many blocks as the chunk size allows, or the last ones up to the safe head. */
  predicate Sized(from: nat, last: nat, size: nat, safeHead: nat) {
    && from <= last <= safeHead && last < from + size
    && (last + 1 == from + size || last == safeHead)
  }

  /** The chunks follow one another without gap or overlap from block `start` up to, not including, `end`. */
  predicate Tiles(chunks: seq<Chunk>, start: nat, end: nat) {
    if chunks == [] then start == end else
    var last := chunks[|chunks| - 1];
    Sized(last.from, last.last, last.size, last.safeHead) && last.last + 1 == end &&
    Tiles(chunks[..|chunks| - 1], start, last.from)
  }

  predicate Contains(chunk: Chunk, b: nat) {
    chunk.from <= b <= chunk.last
  }

  predicate InSomeChunk(chunks: seq<Chunk>, b: nat) {
    exists i :: 0 <= i < |chunks| && Contains(chunks[i], b)
  }

  /** Each chunk ends before the next one starts. */
  predicate InOrder(chunks: seq<Chunk>) {
    forall i, j :: 0 <= i < j < |chunks| ==> chunks[i].last < chunks[j].from
  }

  predicate FitSizes(chunks: seq<Chunk>) {
    forall i :: 0 <= i < |chunks| ==> Sized(chunks[i].from, chunks[i].last, chunks[i].size, chunks[i].safeHead)
  }

  predicate PositionOk(cfg: Config, s: State) {
    match s.phase
    case Idle => true
    case SawHead(_) => true
    case Scanning(job, cursor) => cursor == ResumeFrom(cfg, s.checkpoints, job.contract)
    case Fetched(job, cursor, toBlock, _) => ChunkPositionOk(cfg, s, job, cursor, toBlock)
    case Inserted(job, cursor, toBlock, _, _) => ChunkPositionOk(cfg, s, job, cursor, toBlock)
    case Written(job, cursor, toBlock, _, _, _) => ChunkPositionOk(cfg, s, job, cursor, toBlock)
  }

  predicate ChunkPositionOk(cfg: Config, s: State, job: Job, cursor: nat, toBlock: nat) {
    cursor == ResumeFrom(cfg, s.checkpoints, job.contract) && Sized(cursor, toBlock, job.chunkSize, job.safeHead)
  }

  predicate TilingOk(cfg: Config, s: State, c: Contract) {
    Tiles(ChunksOf(s.chunks, c), cfg.Deploy(c), ResumeFrom(cfg, s.checkpoints, c))
  }

  predicate ProgressInvariant(cfg: Config, s: State) {
    PositionOk(cfg, s) && TilingOk(cfg, s, InsurancePolicy) && TilingOk(cfg, s, ClaimRegistry)
  }

  lemma ChunksOfSnoc(chunks: seq<Chunk>, chunk: Chunk, c: Contract)
    ensures ChunksOf(chunks + [chunk], c) ==
            if chunk.contract == c then ChunksOf(chunks, c) + [chunk] else ChunksOf(chunks, c)
  {
    assert (chunks + [chunk])[..|chunks|] == chunks;
  }

  lemma TilesSnoc(chunks: seq<Chunk>, start: nat, chunk: Chunk)
    requires Tiles(chunks, start, chunk.from) && Sized(chunk.from, chunk.last, chunk.size, chunk.safeHead)
    ensures Tiles(chunks + [chunk], start, chunk.last + 1)
  {
    assert (chunks + [chunk])[..|chunks|] == chunks;
  }

  lemma SaveStep(cfg: Config, s: State)
    requires ProgressInvariant(cfg, s) && Enabled(cfg, s, SaveCheckpoint)
    ensures ProgressInvariant(cfg, After(cfg, s, SaveCheckpoint))
  {
    hide ChunksOf, Tiles;
    var p := s.phase;
    var chunk := Chunk(p.job.contract, p.cursor, p.toBlock, p.job.chunkSize, p.job.safeHead);
    ChunksOfSnoc(s.chunks, chunk, InsurancePolicy);
    ChunksOfSnoc(s.chunks, chunk, ClaimRegistry);
    TilesSnoc(ChunksOf(s.chunks, chunk.contract), cfg.Deploy(chunk.contract), chunk);
  }

  /** One step keeps the tiling, and moves each resume point forward or not at all. */
  lemma ProgressStep(cfg: Config, s: State, a: Action)
    requires ProgressInvariant(cfg, s) && Enabled(cfg, s, a)
    ensures ProgressInvariant(cfg, After(cfg, s, a))
    ensures forall c :: c in s.checkpoints ==>
              c in After(cfg, s, a).checkpoints && s.checkpoints[c] <= After(cfg, s, a).checkpoints[c]
  {
    hide WellFormed, LogsIn, OfContract, BlockAt, Apply, ReportFor, InLedger, ChunksOf, Tiles;
    if a.SaveCheckpoint? {
      SaveStep(cfg, s);
    }
  }

  lemma {:induction false} ProgressRun(cfg: Config, s: State, acts: seq<Action>)
    requires ProgressInvariant(cfg, s) && Run(cfg, s, acts).Some?
    ensures var t := Run(cfg, s, acts).value;
            && ProgressInvariant(cfg, t)
            && forall c :: c in s.checkpoints ==> c in t.checkpoints && s.checkpoints[c] <= t.checkpoints[c]
  {
    if acts != [] {
      hide ProgressInvariant, Enabled, After;
      var n := |acts| - 1;
      ProgressRun(cfg, s, acts[..n]);
      ProgressStep(cfg, Run(cfg, s, acts[..n]).value, acts[n]);
    }
  }

  lemma ProgressHolds(cfg: Config, s: State)
    requires Reachable(cfg, s)
    ensures ProgressInvariant(cfg, s)
  {
    hide WellFormed;
    var init, acts :| Initial(cfg, init) && Run(cfg, init, acts) == Some(s);
    ProgressRun(cfg, init, acts);
  }

  /** Whatever heads are reported, a checkpoint that is set stays set and never decreases. */
  lemma CheckpointNeverFalls(cfg: Config, s: State, acts: seq<Action>, t: State, c: Contract)
    requires Reachable(cfg, s) && Run(cfg, s, acts) == Some(t) && c in s.checkpoints
    ensures c in t.checkpoints && s.checkpoints[c] <= t.checkpoints[c]
  {
    ProgressHolds(cfg, s);
    ProgressRun(cfg, s, acts);
  }

  lemma InSomeChunkSnoc(chunks: seq<Chunk>, chunk: Chunk, b: nat)
    ensures InSomeChunk(chunks + [chunk], b) <==> InSomeChunk(chunks, b) || Contains(chunk, b)
  {
    hide Contains;
    var more := chunks + [chunk];
    if InSomeChunk(chunks, b) {
      var i :| 0 <= i < |chunks| && Contains(chunks[i], b);
      assert Contains(more[i], b);
    }
    assert more[|chunks|] == chunk;
  }

  lemma {:induction false} TilesEnd(chunks: seq<Chunk>, start: nat, end: nat)
    requires Tiles(chunks, start, end)
    ensures start <= end
    ensures forall i :: 0 <= i < |chunks| ==> chunks[i].from <= chunks[i].last < end
  {
    if chunks != [] {
      var n := |chunks| - 1;
      TilesEnd(chunks[..n], start, chunks[n].from);
      assert forall i :: 0 <= i < n ==> chunks[..n][i] == chunks[i];
    }
  }

  /** Tiling chunks cover each block of the range and no other block. */
  lemma {:induction false} TilesCover(chunks: seq<Chunk>, start: nat, end: nat, b: nat)
    requires Tiles(chunks, start, end)
    ensures start <= b < end <==> InSomeChunk(chunks, b)
  {
    if chunks != [] {
      hide InSomeChunk;
      var n := |chunks| - 1;
      assert chunks == chunks[..n] + [chunks[n]];
      TilesEnd(chunks[..n], start, chunks[n].from);
      TilesCover(chunks[..n], start, chunks[n].from, b);
      InSomeChunkSnoc(chunks[..n], chunks[n], b);
    }
  }

  /** Tiling chunks are in order, hence disjoint. */
  lemma {:induction false} TilesInOrder(chunks: seq<Chunk>, start: nat, end: nat)
    requires Tiles(chunks, start, end)
    ensures InOrder(chunks)
  {
    if chunks != [] {
      var n := |chunks| - 1;
      TilesInOrder(chunks[..n], start, chunks[n].from);
      TilesEnd(chunks[..n], start, chunks[n].from);
      assert forall i :: 0 <= i < n ==> chunks[..n][i] == chunks[i];
    }
  }

  /** In every reachable state each block from the deploy block to the checkpoint lies in exactly one
      finished chunk, no other block lies in any, and each chunk has the size its scan was given, except one
      that ends at the scan's safe head. */
  lemma ChunksPartitionScannedBlocks(cfg: Config, s: State, c: Contract, b: nat)
    requires Reachable(cfg, s)
    ensures var chunks := ChunksOf(s.chunks, c);
            && (cfg.Deploy(c) <= b < ResumeFrom(cfg, s.checkpoints, c) <==> InSomeChunk(chunks, b))
            && InOrder(chunks) && FitSizes(chunks)
  {
    hide Reachable, ChunksOf, Tiles, InSomeChunk, InOrder, FitSizes, PositionOk;
    ProgressHolds(cfg, s);
    assert c == InsurancePolicy || c == ClaimRegistry;
    TilesCover(ChunksOf(s.chunks, c), cfg.Deploy(c), ResumeFrom(cfg, s.checkpoints, c), b);
    TilesInOrder(ChunksOf(s.chunks, c), cfg.Deploy(c), ResumeFrom(cfg, s.checkpoints, c));
    TilesFitSizes(ChunksOf(s.chunks, c), cfg.Deploy(c), ResumeFrom(cfg, s.checkpoints, c));
  }

  lemma {:induction false} TilesFitSizes(chunks: seq<Chunk>, start: nat, end: nat)
    requires Tiles(chunks, start, end)
    ensures FitSizes(chunks)
  {
    if chunks != [] {
      TilesFitSizes(chunks[..|chunks| - 1], start, chunks[|chunks| - 1].from);
      assert forall i :: 0 <= i < |chunks| - 1 ==> chunks[..|chunks| - 1][i] == chunks[i];
    }
  }
}
