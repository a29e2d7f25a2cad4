/** The indexer as a machine of single external calls. Between any two calls the chain may move, and
    any call may fail, which abandons the pass. */
module IndexerMachine {
  import opened Wrappers
  import opened Chain
  import opened Projection
  import opened Storage

  /** `depth` bounds how many of the newest blocks a reorganisation may replace. */
  datatype Config = Config(policyDeploy: nat, claimDeploy: nat, margin: nat, depth: nat) {
    function Deploy(c: Contract): nat {
      if c == InsurancePolicy then policyDeploy else claimDeploy
    }

    /** The last block a pass may read when it sees `head`. */
    function SafeHead(head: nat): nat {
      if head <= margin then 0 else head - margin
    }
  }

  /** One `scanContract` call under way. */
  datatype Job = Job(contract: Contract, chunkSize: nat, safeHead: nat)

  datatype Phase =
    | Idle
    | SawHead(job: Job)
    | Scanning(job: Job, cursor: nat)
    | Fetched(job: Job, cursor: nat, toBlock: nat, todo: seq<Log>)
    | Inserted(job: Job, cursor: nat, toBlock: nat, log: Log, todo: seq<Log>)
    | Written(job: Job, cursor: nat, toBlock: nat, log: Log, report: Report, todo: seq<Log>)

  /** The block range of one finished chunk, with the chunk size and the safe head of its scan. */
  datatype Chunk = Chunk(contract: Contract, from: nat, last: nat, size: nat, safeHead: nat)

  datatype Sent = Sent(log: Log, report: Report)

  /** `ledger`, `tables` and `checkpoints` are the database; `chain` and `peak` (the highest head there
      has been) are the world; `gaps`, `reports` and `chunks` only record what happened. */
  datatype State = State(
    chain: Blocks, peak: nat,
    ledger: seq<Log>, tables: Tables, checkpoints: map<Contract, nat>,
    phase: Phase,
    gaps: set<Key>, reports: seq<Sent>, chunks: seq<Chunk>)

  /** How many of the lowest blocks no reorganisation may touch any more. */
  function Frozen(cfg: Config, peak: nat): nat {
    if peak < cfg.depth then 0 else peak + 1 - cfg.depth
  }

  predicate Initial(cfg: Config, s: State) {
    && WellFormed(s.chain) && |s.chain| <= s.peak + 1 && Frozen(cfg, s.peak) <= |s.chain|
    && s.ledger == [] && s.tables == EMPTY_TABLES && s.checkpoints == map[] && s.phase == Idle
    && s.gaps == {} && s.reports == [] && s.chunks == []
  }

  datatype Action =
    | MoveChain(newChain: Blocks)
    | ReadHead(contract: Contract, chunkSize: nat, head: nat)
    | ReadCheckpoint
    | FetchLogs
    | FinishScan
    | SkipLog
    | InsertRaw
    | WriteTable
    | SendReport(delivered: bool)
    | SaveCheckpoint
    | Fail

  function HighestHead(peak: nat, chain: Blocks): nat {
    if |chain| <= peak + 1 then peak else |chain| - 1
  }

  /** The block a scan of `c` starts from: the deploy block, or the one after the checkpoint. */
  function ResumeFrom(cfg: Config, checkpoints: map<Contract, nat>, c: Contract): nat {
    if c in checkpoints then checkpoints[c] + 1 else cfg.Deploy(c)
  }

  function ChunkEnd(cursor: nat, chunkSize: nat, safeHead: nat): nat
    requires chunkSize >= 1
  {
    if cursor + chunkSize - 1 <= safeHead then cursor + chunkSize - 1 else safeHead
  }

  /** The chain may grow, and may replace any blocks that are not frozen. */
  predicate MayBecome(cfg: Config, chain: Blocks, peak: nat, newChain: Blocks) {
    && WellFormed(newChain)
    && Frozen(cfg, peak) <= |newChain|
    && forall b: nat :: b < Frozen(cfg, peak) ==> BlockAt(newChain, b) == BlockAt(chain, b)
  }

  /** Blocks frozen at the earlier time are the same at the later one. */
  predicate WorldMoved(cfg: Config, chain: Blocks, peak: nat, chain': Blocks, peak': nat) {
    && peak <= peak' && Frozen(cfg, peak) <= Frozen(cfg, peak')
    && forall b: nat :: b < Frozen(cfg, peak) ==> BlockAt(chain', b) == BlockAt(chain, b)
  }

  predicate InLedger(ledger: seq<Log>, key: Key) {
    exists i :: 0 <= i < |ledger| && ledger[i].key == key
  }

  predicate Enabled(cfg: Config, s: State, a: Action) {
    match a
    case MoveChain(newChain) => MayBecome(cfg, s.chain, s.peak, newChain)
    case ReadHead(_, chunkSize, head) => s.phase.Idle? && chunkSize >= 1 && head <= s.peak
    case ReadCheckpoint => s.phase.SawHead?
    case FetchLogs => s.phase.Scanning? && s.phase.cursor <= s.phase.job.safeHead && s.phase.job.chunkSize >= 1
    case FinishScan => s.phase.Scanning? && s.phase.cursor > s.phase.job.safeHead
    case SkipLog => s.phase.Fetched? && s.phase.todo != [] && s.phase.todo[0].decoded.Throws?
    case InsertRaw => s.phase.Fetched? && s.phase.todo != [] && Recordable(s.phase.todo[0])
    case WriteTable => s.phase.Inserted? && Writable(s.phase.log)
    case SendReport(_) => s.phase.Written?
    case SaveCheckpoint => s.phase.Fetched? && s.phase.todo == []
    case Fail => !s.phase.Idle?
  }

  function After(cfg: Config, s: State, a: Action): State
    requires Enabled(cfg, s, a)
  {
    var p := s.phase;
    match a
    case MoveChain(newChain) =>
      s.(chain := newChain, peak := HighestHead(s.peak, newChain))
    case ReadHead(c, chunkSize, head) =>
      s.(phase := SawHead(Job(c, chunkSize, cfg.SafeHead(head))))
    case ReadCheckpoint =>
      var from := ResumeFrom(cfg, s.checkpoints, p.job.contract);
      s.(phase := if from > p.job.safeHead then Idle else Scanning(p.job, from))
    case FetchLogs =>
      var toBlock := ChunkEnd(p.cursor, p.job.chunkSize, p.job.safeHead);
      s.(phase := Fetched(p.job, p.cursor, toBlock,
                          OfContract(LogsIn(s.chain, p.cursor, toBlock + 1), p.job.contract)))
    case FinishScan =>
      s.(phase := Idle)
    case SkipLog =>
      s.(phase := Fetched(p.job, p.cursor, p.toBlock, p.todo[1..]))
    case InsertRaw =>
      if InLedger(s.ledger, p.todo[0].key)
      then s.(phase := Fetched(p.job, p.cursor, p.toBlock, p.todo[1..]))
      else s.(ledger := s.ledger + [p.todo[0]],
              phase := Inserted(p.job, p.cursor, p.toBlock, p.todo[0], p.todo[1..]))
    case WriteTable =>
      var tables := Apply(s.tables, p.log);
      s.(tables := tables,
         phase := match ReportFor(tables, p.log)
                  case Some(r) => Written(p.job, p.cursor, p.toBlock, p.log, r, p.todo)
                  case None => Fetched(p.job, p.cursor, p.toBlock, p.todo))
    case SendReport(delivered) =>
      s.(reports := if delivered then s.reports + [Sent(p.log, p.report)] else s.reports,
         phase := Fetched(p.job, p.cursor, p.toBlock, p.todo))
    case SaveCheckpoint =>
      s.(checkpoints := s.checkpoints[p.job.contract := p.toBlock],
         chunks := s.chunks + [Chunk(p.job.contract, p.cursor, p.toBlock, p.job.chunkSize, p.job.safeHead)],
         phase := Scanning(p.job, p.toBlock + 1))
    case Fail =>
      s.(phase := Idle, gaps := if p.Inserted? then s.gaps + {p.log.key} else s.gaps)
  }

  /** The state after `acts`, if each was possible in its turn. */
  function Run(cfg: Config, init: State, acts: seq<Action>): Option<State> {
    if acts == [] then Some(init) else
    match Run(cfg, init, acts[..|acts| - 1])
    case None => None
    case Some(s) => if Enabled(cfg, s, acts[|acts| - 1]) then Some(After(cfg, s, acts[|acts| - 1])) else None
  }

  /** `s` can come about: some run from an empty database ends in it. */
  ghost predicate Reachable(cfg: Config, s: State) {
    exists init, acts :: Initial(cfg, init) && Run(cfg, init, acts) == Some(s)
  }

  lemma RunStep(cfg: Config, init: State, acts: seq<Action>, s: State, a: Action)
    requires Run(cfg, init, acts) == Some(s) && Enabled(cfg, s, a)
    ensures Run(cfg, init, acts + [a]) == Some(After(cfg, s, a))
  {
    assert (acts + [a])[..|acts|] == acts;
  }

  lemma RunStartsReachable(cfg: Config, init: State)
    requires Initial(cfg, init)
    ensures Reachable(cfg, init)
  {
    assert Run(cfg, init, []) == Some(init);
  }

  lemma StepMovesWorld(cfg: Config, s: State, a: Action)
    requires Enabled(cfg, s, a)
    ensures WorldMoved(cfg, s.chain, s.peak, After(cfg, s, a).chain, After(cfg, s, a).peak)
  {
    hide WellFormed, LogsIn, OfContract, Apply, ReportFor, InLedger, BlockAt;
  }

  lemma {:induction false} RunMovesWorld(cfg: Config, s: State, acts: seq<Action>)
    requires Run(cfg, s, acts).Some?
    ensures WorldMoved(cfg, s.chain, s.peak, Run(cfg, s, acts).value.chain, Run(cfg, s, acts).value.peak)
  {
    if acts != [] {
      hide Enabled, After, BlockAt, Frozen;
      var n := |acts| - 1;
      RunMovesWorld(cfg, s, acts[..n]);
      StepMovesWorld(cfg, Run(cfg, s, acts[..n]).value, acts[n]);
    }
  }
}
