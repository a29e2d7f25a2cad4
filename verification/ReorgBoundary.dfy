/** Outside the safe configurations the ledger can keep a log that the chain has dropped, so the safe
    configurations are exactly the ones `LedgerSafety` names. */
module ReorgBoundary {
  import opened Wrappers
  import opened Chain
  import opened Projection
  import opened Storage
  import opened IndexerMachine
  import opened LedgerSafety

  function SampleEvent(c: Contract): (e: Event)
    ensures e.Emitter() == c
  {
    match c
    case InsurancePolicy => PolicyRevoked(0)
    case ClaimRegistry => ClaimSubmitted(0, 0, "", "", 0, 0)
  }

  function SampleLog(c: Contract, b: nat, tx: string): Log {
    Log(c, b, Key(tx, 0), Known(SampleEvent(c)))
  }

  /** A chain of `head + 1` blocks that hold one log. */
  function OneLog(head: nat, log: Log): Blocks {
    seq(head + 1, i => if i == log.block then [log] else [])
  }

  lemma {:induction false} OneLogLogs(head: nat, log: Log, end: nat)
    requires log.block <= head && end <= head + 1
    ensures LogsIn(OneLog(head, log), 0, end) == if end <= log.block then [] else [log]
  {
    if end > 0 {
      OneLogLogs(head, log, end - 1);
    }
  }

  lemma OneLogWellFormed(head: nat, log: Log)
    requires log.block <= head && DecodedByOwnAbi([log])
    ensures WellFormed(OneLog(head, log)) && |OneLog(head, log)| == head + 1
    ensures OfContract(LogsIn(OneLog(head, log), log.block, log.block + 1), log.contract) == [log]
    ensures LogsIn(OneLog(head, log), 0, head + 1) == [log]
  {
    OneLogLogs(head, log, head + 1);
    OneLogBlock(head, log);
    hide LogsIn, OneLog;
    OfContractSnoc([], log, log.contract);
    assert [] + [log] == [log];
  }

  lemma OneLogBlock(head: nat, log: Log)
    requires log.block <= head
    ensures BlockNumbersFit(OneLog(head, log)) && |OneLog(head, log)| == head + 1
    ensures LogsIn(OneLog(head, log), log.block, log.block + 1) == [log]
  {
    assert LogsIn(OneLog(head, log), log.block, log.block) == [];
  }

  /** A pass that reads block `d`, the deploy block, and is interrupted after recording its one log. */
  lemma RecordsDeployBlock(cfg: Config, c: Contract, chain: Blocks, peak: nat, log: Log)
    returns (init: State, acts: seq<Action>)
    requires cfg.SafeHead(peak) == cfg.Deploy(c) && |chain| == peak + 1 && WellFormed(chain)
    requires OfContract(LogsIn(chain, cfg.Deploy(c), cfg.Deploy(c) + 1), c) == [log] && Recordable(log)
    ensures Initial(cfg, init)
    ensures Run(cfg, init, acts) ==
            Some(init.(ledger := [log],
                       phase := Inserted(Job(c, 1, cfg.Deploy(c)), cfg.Deploy(c), cfg.Deploy(c), log, [])))
    ensures init.chain == chain && init.peak == peak && init.checkpoints == map[]
  {
    hide WellFormed, LogsIn, OfContract, Recordable, Writable;
    var d := cfg.Deploy(c);
    init := State(chain, peak, [], EMPTY_TABLES, map[], Idle, {}, [], []);
    acts := [];
    RunStep(cfg, init, acts, init, ReadHead(c, 1, peak));
    acts := acts + [ReadHead(c, 1, peak)];
    RunStep(cfg, init, acts, init.(phase := SawHead(Job(c, 1, d))), ReadCheckpoint);
    acts := acts + [ReadCheckpoint];
    RunStep(cfg, init, acts, init.(phase := Scanning(Job(c, 1, d), d)), FetchLogs);
    acts := acts + [FetchLogs];
    RunStep(cfg, init, acts, init.(phase := Fetched(Job(c, 1, d), d, d, [log])), InsertRaw);
    acts := acts + [InsertRaw];
    assert [] + [log] == [log] && [log][1..] == [];
  }

  /** The same, after which the chain is replaced from block `d` on. */
  lemma RecordsThenMoves(cfg: Config, c: Contract, before: Blocks, after: Blocks, peak: nat, log: Log)
    returns (s: State)
    requires cfg.SafeHead(peak) == cfg.Deploy(c) && |before| == peak + 1 == |after|
    requires WellFormed(before) && WellFormed(after)
    requires OfContract(LogsIn(before, cfg.Deploy(c), cfg.Deploy(c) + 1), c) == [log] && Recordable(log)
    requires Frozen(cfg, peak) <= |after|
    requires forall b: nat :: b < Frozen(cfg, peak) ==> BlockAt(after, b) == BlockAt(before, b)
    ensures Reachable(cfg, s)
    ensures s.ledger == [log] && s.chain == after && s.peak == peak
  {
    hide WellFormed, LogsIn, OfContract, BlockAt, Run;
    var init, acts := RecordsDeployBlock(cfg, c, before, peak, log);
    s := Run(cfg, init, acts).value;
    assert Enabled(cfg, s, MoveChain(after));
    RunStep(cfg, init, acts, s, MoveChain(after));
    s := s.(chain := after);
  }

  /** An unsafe configuration lets a log into the ledger that is then on no block of the chain. */
  lemma UnsafeLedgerKeepsOrphan(cfg: Config) returns (s: State, c: Contract, orphan: Log)
    requires !ReadsOnlyFinalBlocks(cfg)
    ensures Reachable(cfg, s)
    ensures orphan in s.ledger && orphan !in LogsIn(s.chain, 0, |s.chain|)
    ensures !Faithful(cfg, s, c)
  {
    hide WellFormed, LogsIn, OfContract, Run, Faithful, Reachable;
    c := if cfg.policyDeploy == 0 then InsurancePolicy else ClaimRegistry;
    var d := cfg.Deploy(c);
    var head := if cfg.margin < cfg.depth then d + cfg.margin else 0;
    var other := SampleLog(c, d, "b");
    orphan := SampleLog(c, d, "a");
    OneLogWellFormed(head, orphan);
    OneLogWellFormed(head, other);
    assert orphan.key != other.key;
    s := RecordsThenMoves(cfg, c, OneLog(head, orphan), OneLog(head, other), head, orphan);
    NothingFinal(cfg, s, c, orphan);
  }

  lemma NothingFinal(cfg: Config, s: State, c: Contract, orphan: Log)
    requires s.ledger == [orphan] && orphan.contract == c && Frozen(cfg, s.peak) <= cfg.Deploy(c)
    ensures !Faithful(cfg, s, c)
  {
    assert OfContract([orphan], c) == [orphan];
    assert Final(cfg, s, c) == [];
  }

  /** The ledger is faithful in every reachable state exactly when the configuration holds back at
      least as many blocks as a reorganisation may replace and no deploy block is block 0, where the
      clamp of the safe head at 0 defeats the margin (or when nothing is ever replaced). */
  lemma FaithfulExactlyWhenFinal(cfg: Config)
    ensures (forall s, c :: Reachable(cfg, s) ==> Faithful(cfg, s, c)) <==> ReadsOnlyFinalBlocks(cfg)
  {
    if ReadsOnlyFinalBlocks(cfg) {
      forall s, c | Reachable(cfg, s)
        ensures Faithful(cfg, s, c)
      {
        LedgerIsFaithful(cfg, s, c);
      }
    } else {
      var s, c, _ := UnsafeLedgerKeepsOrphan(cfg);
    }
  }
}
