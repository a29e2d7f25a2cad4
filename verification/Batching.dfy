/** The result of indexing does not show how the work was cut up: it is a function of the chain, the
    deploy blocks and the checkpoints. */
module Batching {
  import opened Wrappers
  import opened Chain
  import opened Projection
  import opened IndexerMachine
  import opened LedgerSafety
  import opened TableSafety
  import opened ScanProgress

  /** No row lies beyond its contract's checkpoint, as an interrupted chunk would leave it. */
  predicate Settled(cfg: Config, s: State) {
    forall e :: e in s.ledger ==> e.block < ResumeFrom(cfg, s.checkpoints, e.contract)
  }

  lemma DueInBlocks(chain: Blocks, c: Contract, from: nat, end: nat)
    requires BlockNumbersFit(chain)
    ensures forall l :: l in Expected(chain, c, from, end) ==> l.contract == c && from <= l.block < end
  {
    LogsInBlocks(chain, from, end);
    OfContractMembers(LogsIn(chain, from, end), c);
    RecognisedMembers(OfContract(LogsIn(chain, from, end), c));
  }

  lemma NextRow(rows: seq<Log>, due: seq<Log>, later: seq<Log>)
    requires due <= rows <= due + later && |due| < |rows|
    ensures later != [] && later[0] in later && later[0] in rows
  {
    assert rows[|due|] == (due + later)[|due|] == later[0];
  }

  /** Rows that start with `due` and go on along `due + later` without any log of `later`. */
  lemma NothingLater(rows: seq<Log>, due: seq<Log>, later: seq<Log>)
    requires due <= rows <= due + later
    requires forall l :: l in later ==> l !in rows
    ensures rows == due
  {
    if |due| < |rows| {
      NextRow(rows, due, later);
      assert false;
    }
  }

  /** In a settled state each contract's ledger is exactly what its scanned blocks call for. */
  lemma SettledLedger(cfg: Config, s: State, c: Contract)
    requires ReadsOnlyFinalBlocks(cfg) && Reachable(cfg, s) && Settled(cfg, s)
    ensures OfContract(s.ledger, c) == Due(cfg, s.chain, c, ResumeFrom(cfg, s.checkpoints, c))
  {
    hide OfContract, LogsIn, Recognised, DistinctKeys, Reachable;
    LedgerIsFaithful(cfg, s, c);
    LedgerInvariantHolds(cfg, s);
    assert c == InsurancePolicy || c == ClaimRegistry;
    var resume, frozen := ResumeFrom(cfg, s.checkpoints, c), Frozen(cfg, s.peak);
    var rows := OfContract(s.ledger, c);
    if resume <= frozen {
      ExpectedSplit(s.chain, c, cfg.Deploy(c), resume, frozen);
      DueInBlocks(s.chain, c, resume, frozen);
      OfContractMembers(s.ledger, c);
      NothingLater(rows, Due(cfg, s.chain, c, resume), Expected(s.chain, c, resume, frozen));
    } else {
      assert c !in s.checkpoints;
      NothingExpected(s.chain, c, cfg.Deploy(c), frozen);
    }
  }

  lemma LedgerUsesOwnAbi(cfg: Config, s: State)
    requires ReadsOnlyFinalBlocks(cfg) && Reachable(cfg, s)
    ensures DecodedByOwnAbi(s.ledger)
  {
    LedgerInvariantHolds(cfg, s);
    hide Due, OfContract, LogsIn, DistinctKeys, Final, PhaseOk, Reachable;
    forall e | e in s.ledger && e.decoded.Known?
      ensures e.decoded.event.Emitter() == e.contract
    {
      assert e.contract == InsurancePolicy || e.contract == ClaimRegistry;
      OfContractMembers(s.ledger, e.contract);
      FinalDistinct(cfg, s, e.contract);
      assert e in Final(cfg, s, e.contract);
    }
  }

  /** A settled state without gaps holds exactly the replay of the scanned blocks' logs. */
  lemma SettledIsReference(cfg: Config, s: State)
    requires ReadsOnlyFinalBlocks(cfg) && Reachable(cfg, s) && Settled(cfg, s)
    requires s.gaps == {} && s.phase.Idle?
    ensures s.tables.claims ==
            Replay(Due(cfg, s.chain, ClaimRegistry, ResumeFrom(cfg, s.checkpoints, ClaimRegistry))).claims
    ensures s.tables.policies ==
            Replay(Due(cfg, s.chain, InsurancePolicy, ResumeFrom(cfg, s.checkpoints, InsurancePolicy))).policies
  {
    hide Due, OfContract, Replay, Reachable, DecodedByOwnAbi, Settled;
    TablesAreReplay(cfg, s);
    LedgerUsesOwnAbi(cfg, s);
    TablesArePerContract(s.ledger);
    SettledLedger(cfg, s, ClaimRegistry);
    SettledLedger(cfg, s, InsurancePolicy);
  }

  /** Two runs over the same chain that have come to the same checkpoints, however their passes, chunk
      sizes, heads, margins, failures and contract interleavings differed, hold the same rows of each
      contract and the same tables. */
  lemma BatchingIsInvisible(cfg: Config, s: State, cfg': Config, t: State)
    requires ReadsOnlyFinalBlocks(cfg) && Reachable(cfg, s) && Settled(cfg, s) && s.gaps == {} && s.phase.Idle?
    requires ReadsOnlyFinalBlocks(cfg') && Reachable(cfg', t) && Settled(cfg', t) && t.gaps == {} && t.phase.Idle?
    requires cfg'.policyDeploy == cfg.policyDeploy && cfg'.claimDeploy == cfg.claimDeploy
    requires s.checkpoints == t.checkpoints
    requires forall c, b: nat :: b < ResumeFrom(cfg, s.checkpoints, c) ==> BlockAt(s.chain, b) == BlockAt(t.chain, b)
    ensures forall c :: OfContract(s.ledger, c) == OfContract(t.ledger, c)
    ensures s.tables == t.tables
  {
    hide OfContract, Replay, Reachable, Settled, Expected, BlockAt;
    forall c: Contract
      ensures Due(cfg, s.chain, c, ResumeFrom(cfg, s.checkpoints, c)) ==
              Due(cfg', t.chain, c, ResumeFrom(cfg', t.checkpoints, c))
      ensures OfContract(s.ledger, c) == OfContract(t.ledger, c)
    {
      SettledLedger(cfg, s, c);
      SettledLedger(cfg', t, c);
      ExpectedAgree(s.chain, t.chain, c, cfg.Deploy(c), ResumeFrom(cfg, s.checkpoints, c));
    }
    SettledIsReference(cfg, s);
    SettledIsReference(cfg', t);
  }

  lemma ExpectedAgree(chain: Blocks, other: Blocks, c: Contract, from: nat, end: nat)
    requires forall b: nat :: b < end ==> BlockAt(chain, b) == BlockAt(other, b)
    ensures Expected(chain, c, from, end) == Expected(other, c, from, end)
  {
    LogsInAgree(chain, other, from, end);
  }

  // ----- runs without a failed call

  /** The first block whose logs of `c` cannot be in the ledger yet. */
  function Bound(cfg: Config, s: State, c: Contract): nat {
    var resume := ResumeFrom(cfg, s.checkpoints, c);
    match s.phase
    case Fetched(job, _, toBlock, _) => if c == job.contract then toBlock + 1 else resume
    case Inserted(job, _, toBlock, _, _) => if c == job.contract then toBlock + 1 else resume
    case Written(job, _, toBlock, _, _, _) => if c == job.contract then toBlock + 1 else resume
    case _ => resume
  }

  function Todo(phase: Phase): seq<Log> {
    if phase.Fetched? || phase.Inserted? || phase.Written? then phase.todo else []
  }

  predicate Within(cfg: Config, s: State, logs: seq<Log>) {
    forall l :: l in logs ==> l.block < Bound(cfg, s, l.contract)
  }

  predicate CleanInvariant(cfg: Config, s: State) {
    && s.gaps == {} && BlockNumbersFit(s.chain) && ProgressInvariant(cfg, s)
    && Within(cfg, s, s.ledger) && Within(cfg, s, Todo(s.phase))
  }

  lemma WithinWider(cfg: Config, s: State, t: State, logs: seq<Log>)
    requires Within(cfg, s, logs) && forall c :: Bound(cfg, s, c) <= Bound(cfg, t, c)
    ensures Within(cfg, t, logs)
  {
    hide Bound;
  }

  /** Without a failure the bounds only grow. */
  lemma BoundGrows(cfg: Config, s: State, a: Action, c: Contract)
    requires PositionOk(cfg, s) && Enabled(cfg, s, a) && !a.Fail?
    ensures Bound(cfg, s, c) <= Bound(cfg, After(cfg, s, a), c)
  {
    hide WellFormed, LogsIn, OfContract, BlockAt, Apply, ReportFor, InLedger;
  }

  lemma FetchedWithin(cfg: Config, s: State)
    requires BlockNumbersFit(s.chain) && Enabled(cfg, s, FetchLogs)
    ensures var t := After(cfg, s, FetchLogs); Within(cfg, t, t.phase.todo)
  {
    hide LogsIn, OfContract;
    var job, cursor := s.phase.job, s.phase.cursor;
    var end := ChunkEnd(cursor, job.chunkSize, job.safeHead) + 1;
    LogsInBlocks(s.chain, cursor, end);
    OfContractMembers(LogsIn(s.chain, cursor, end), job.contract);
  }

  /** What a step adds to the ledger or keeps to do, the chunk at hand already had to do. */
  lemma RowsComeFromTodo(cfg: Config, s: State, a: Action)
    requires Enabled(cfg, s, a) && !a.FetchLogs?
    ensures forall l :: l in Todo(After(cfg, s, a).phase) ==> l in Todo(s.phase)
    ensures forall l :: l in After(cfg, s, a).ledger ==> l in s.ledger || l in Todo(s.phase)
  {
    hide WellFormed, LogsIn, OfContract, BlockAt, Apply, ReportFor, InLedger;
  }

  lemma CleanStepKeeps(cfg: Config, s: State, a: Action)
    requires CleanInvariant(cfg, s) && Enabled(cfg, s, a) && !a.Fail?
    ensures CleanInvariant(cfg, After(cfg, s, a))
  {
    var t := After(cfg, s, a);
    assert t.gaps == {} && BlockNumbersFit(t.chain);
    ProgressStep(cfg, s, a);
    forall c
      ensures Bound(cfg, s, c) <= Bound(cfg, t, c)
    {
      BoundGrows(cfg, s, a, c);
    }
    WithinWider(cfg, s, t, s.ledger);
    WithinWider(cfg, s, t, Todo(s.phase));
    if a.FetchLogs? {
      FetchedWithin(cfg, s);
    } else {
      RowsComeFromTodo(cfg, s, a);
    }
  }

  lemma {:induction false} CleanRunKeeps(cfg: Config, init: State, acts: seq<Action>)
    requires CleanInvariant(cfg, init) && Run(cfg, init, acts).Some? && Fail !in acts
    ensures CleanInvariant(cfg, Run(cfg, init, acts).value)
  {
    if acts != [] {
      hide CleanInvariant, Enabled, After;
      var n := |acts| - 1;
      CleanRunKeeps(cfg, init, acts[..n]);
      CleanStepKeeps(cfg, Run(cfg, init, acts[..n]).value, acts[n]);
    }
  }

  /** Passes none of whose calls failed leave a settled database without a gap. */
  lemma FailureFreeIsSettled(cfg: Config, init: State, acts: seq<Action>, s: State)
    requires Initial(cfg, init) && Run(cfg, init, acts) == Some(s) && Fail !in acts && s.phase.Idle?
    ensures Settled(cfg, s) && s.gaps == {}
  {
    hide DistinctKeys, LogsIn;
    CleanRunKeeps(cfg, init, acts);
  }

  /** Two runs without a failed call, over chains that agree on the scanned blocks and up to the same
      checkpoints, hold the same rows of each contract and the same tables, however their passes, chunk
      sizes, heads, margins, chain movements and contract interleavings differed. */
  lemma FailureFreeRunsAgree(cfg: Config, init: State, acts: seq<Action>, s: State,
                             cfg': Config, init': State, acts': seq<Action>, t: State)
    requires ReadsOnlyFinalBlocks(cfg) && Initial(cfg, init) && Run(cfg, init, acts) == Some(s)
    requires ReadsOnlyFinalBlocks(cfg') && Initial(cfg', init') && Run(cfg', init', acts') == Some(t)
    requires Fail !in acts && s.phase.Idle? && Fail !in acts' && t.phase.Idle?
    requires cfg'.policyDeploy == cfg.policyDeploy && cfg'.claimDeploy == cfg.claimDeploy
    requires s.checkpoints == t.checkpoints
    requires forall c, b: nat :: b < ResumeFrom(cfg, s.checkpoints, c) ==> BlockAt(s.chain, b) == BlockAt(t.chain, b)
    ensures forall c :: OfContract(s.ledger, c) == OfContract(t.ledger, c)
    ensures s.tables == t.tables
  {
    hide OfContract, Settled, BlockAt, Initial, Run;
    FailureFreeIsSettled(cfg, init, acts, s);
    FailureFreeIsSettled(cfg', init', acts', t);
    BatchingIsInvisible(cfg, s, cfg', t);
  }
}
