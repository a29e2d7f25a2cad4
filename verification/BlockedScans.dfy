/** Which logs stop a scan: those whose parse gives null, because the ABI names no such event, and those whose
    data the driver cannot write as JSON. Handling one throws each time, so no scan ever gets past it. A log
    whose table statement is rejected costs one pass and its own effect, and stops nothing. */
module BlockedScans {
  import opened Wrappers
  import opened Chain
  import opened Projection
  import opened Storage
  import opened IndexerMachine
  import opened LedgerSafety
  import opened ReorgBoundary

  /** Handling `l` throws whenever it is tried, and before anything is written. */
  predicate Blocking(l: Log) {
    l.decoded.NoMatch? || (l.decoded.Known? && !Recordable(l))
  }

  /** Blocking are the logs that parse to null, and all status changes. */
  lemma BlockingExactly(l: Log)
    ensures Blocking(l) <==> l.decoded.NoMatch? || (l.decoded.Known? && l.decoded.event.ClaimStatusChanged?)
  {
    if l.decoded.Known? {
      StatusChangesAreUnrecordable(l);
    }
  }

  /** Every blocking log in `logs` is in `todo`. */
  predicate OnlyIn(logs: seq<Log>, todo: seq<Log>) {
    forall l :: l in logs && Blocking(l) ==> l in todo
  }

  /** None of the logs of `c` in these blocks is blocking. */
  predicate NoneBlocks(chain: Blocks, c: Contract, from: nat, end: nat) {
    OnlyIn(OfContract(LogsIn(chain, from, end), c), [])
  }

  // ----- no scan gets past such a log

  /** Before `end`, the only blocking logs of `c` are those that the chunk at hand has yet to handle. */
  predicate NonePassed(cfg: Config, chain: Blocks, c: Contract, end: nat, todo: seq<Log>) {
    OnlyIn(OfContract(LogsIn(chain, cfg.Deploy(c), end), c), todo)
  }

  predicate ChunkNonePassed(cfg: Config, s: State) {
    match s.phase
    case Idle => true
    case SawHead(_) => true
    case Scanning(_, _) => true
    case Fetched(job, _, toBlock, todo) => NonePassed(cfg, s.chain, job.contract, toBlock + 1, todo)
    case Inserted(job, _, toBlock, _, todo) => NonePassed(cfg, s.chain, job.contract, toBlock + 1, todo)
    case Written(job, _, toBlock, _, _, todo) => NonePassed(cfg, s.chain, job.contract, toBlock + 1, todo)
  }

  predicate CheckpointNonePassed(cfg: Config, s: State, c: Contract) {
    NonePassed(cfg, s.chain, c, ResumeFrom(cfg, s.checkpoints, c), [])
  }

  predicate BlockInvariant(cfg: Config, s: State) {
    && Invariant(cfg, s) && ChunkNonePassed(cfg, s)
    && CheckpointNonePassed(cfg, s, InsurancePolicy) && CheckpointNonePassed(cfg, s, ClaimRegistry)
  }

  lemma NonePassedAtStart(cfg: Config, chain: Blocks, c: Contract)
    ensures NonePassed(cfg, chain, c, cfg.Deploy(c), [])
  {
  }

  lemma MoveKeepsNonePassed(cfg: Config, s: State, newChain: Blocks, c: Contract, end: nat, todo: seq<Log>)
    requires NonePassed(cfg, s.chain, c, end, todo) && Enabled(cfg, s, MoveChain(newChain))
    requires end <= Frozen(cfg, s.peak)
    ensures NonePassed(cfg, newChain, c, end, todo)
  {
    hide WellFormed;
    LogsInAgree(newChain, s.chain, cfg.Deploy(c), end);
  }

  lemma MoveKeepsCheckpoint(cfg: Config, s: State, newChain: Blocks, c: Contract)
    requires LedgerOk(cfg, s, c) && CheckpointNonePassed(cfg, s, c) && Enabled(cfg, s, MoveChain(newChain))
    ensures CheckpointNonePassed(cfg, After(cfg, s, MoveChain(newChain)), c)
  {
    hide NonePassed, WellFormed, Due, OfContract, Covers, Final;
    if c in s.checkpoints {
      MoveKeepsNonePassed(cfg, s, newChain, c, s.checkpoints[c] + 1, []);
    } else {
      NonePassedAtStart(cfg, newChain, c);
    }
  }

  lemma MoveKeepsChunk(cfg: Config, s: State, newChain: Blocks)
    requires PhaseOk(cfg, s) && ChunkNonePassed(cfg, s) && Enabled(cfg, s, MoveChain(newChain))
    ensures ChunkNonePassed(cfg, After(cfg, s, MoveChain(newChain)))
  {
    hide NonePassed, WellFormed, Due, OfContract, Covers;
    match s.phase
    case Idle =>
    case SawHead(_) =>
    case Scanning(_, _) =>
    case Fetched(job, _, toBlock, todo) => MoveKeepsNonePassed(cfg, s, newChain, job.contract, toBlock + 1, todo);
    case Inserted(job, _, toBlock, _, todo) => MoveKeepsNonePassed(cfg, s, newChain, job.contract, toBlock + 1, todo);
    case Written(job, _, toBlock, _, _, todo) => MoveKeepsNonePassed(cfg, s, newChain, job.contract, toBlock + 1, todo);
  }

  lemma FetchedHoldsNew(cfg: Config, chain: Blocks, c: Contract, cursor: nat, end: nat)
    requires cfg.Deploy(c) <= cursor <= end && NonePassed(cfg, chain, c, cursor, [])
    ensures NonePassed(cfg, chain, c, end, OfContract(LogsIn(chain, cursor, end), c))
  {
    hide OfContract, LogsIn;
    LogsInSplit(chain, cfg.Deploy(c), cursor, end);
    OfContractConcat(LogsIn(chain, cfg.Deploy(c), cursor), LogsIn(chain, cursor, end), c);
  }

  lemma FetchKeepsNonePassed(cfg: Config, s: State)
    requires BlockInvariant(cfg, s) && Enabled(cfg, s, FetchLogs)
    ensures ChunkNonePassed(cfg, After(cfg, s, FetchLogs))
  {
    hide NonePassed, LogsIn, OfContract, Due, Covers, WellFormed, LedgerOk;
    var job, cursor := s.phase.job, s.phase.cursor;
    assert job.contract == InsurancePolicy || job.contract == ClaimRegistry;
    FetchedHoldsNew(cfg, s.chain, job.contract, cursor, ChunkEnd(cursor, job.chunkSize, job.safeHead) + 1);
  }

  /** A log that is skipped or recorded is not a blocking one. */
  lemma NextKeepsNonePassed(cfg: Config, chain: Blocks, c: Contract, end: nat, todo: seq<Log>)
    requires NonePassed(cfg, chain, c, end, todo) && todo != [] && !Blocking(todo[0])
    ensures NonePassed(cfg, chain, c, end, todo[1..])
  {
    hide OfContract, LogsIn;
    assert todo == [todo[0]] + todo[1..];
  }

  lemma MoveKeepsBlocked(cfg: Config, s: State, newChain: Blocks)
    requires BlockInvariant(cfg, s) && Enabled(cfg, s, MoveChain(newChain))
    ensures var t := After(cfg, s, MoveChain(newChain));
            && ChunkNonePassed(cfg, t)
            && CheckpointNonePassed(cfg, t, InsurancePolicy) && CheckpointNonePassed(cfg, t, ClaimRegistry)
  {
    hide LedgerOk, PhaseOk, WorldOk, ChunkNonePassed, CheckpointNonePassed, WellFormed, BlockAt;
    MoveKeepsCheckpoint(cfg, s, newChain, InsurancePolicy);
    MoveKeepsCheckpoint(cfg, s, newChain, ClaimRegistry);
    MoveKeepsChunk(cfg, s, newChain);
  }

  lemma LogKeepsNonePassed(cfg: Config, s: State, a: Action)
    requires ChunkNonePassed(cfg, s) && Enabled(cfg, s, a) && (a.SkipLog? || a.InsertRaw?)
    ensures ChunkNonePassed(cfg, After(cfg, s, a))
  {
    hide NonePassed, InLedger;
    NextKeepsNonePassed(cfg, s.chain, s.phase.job.contract, s.phase.toBlock + 1, s.phase.todo);
  }

  lemma OtherKeepsChunk(cfg: Config, s: State, a: Action)
    requires ChunkNonePassed(cfg, s) && Enabled(cfg, s, a) && !a.MoveChain? && !a.FetchLogs?
    ensures ChunkNonePassed(cfg, After(cfg, s, a))
  {
    if a.SkipLog? || a.InsertRaw? {
      LogKeepsNonePassed(cfg, s, a);
    }
    hide NonePassed, InLedger, Apply, ReportFor, OfContract, LogsIn, WellFormed, BlockAt;
  }

  lemma OtherKeepsCheckpoint(cfg: Config, s: State, a: Action, c: Contract)
    requires ChunkNonePassed(cfg, s) && CheckpointNonePassed(cfg, s, c) && Enabled(cfg, s, a) && !a.MoveChain?
    ensures CheckpointNonePassed(cfg, After(cfg, s, a), c)
  {
    hide NonePassed, InLedger, Apply, ReportFor, OfContract, LogsIn, WellFormed, BlockAt;
  }

  lemma BlockStepKeeps(cfg: Config, s: State, a: Action)
    requires ReadsOnlyFinalBlocks(cfg) && BlockInvariant(cfg, s) && Enabled(cfg, s, a)
    ensures BlockInvariant(cfg, After(cfg, s, a))
  {
    hide Invariant, ChunkNonePassed, CheckpointNonePassed, Enabled, After;
    StepKeeps(cfg, s, a);
    if a.MoveChain? {
      MoveKeepsBlocked(cfg, s, a.newChain);
    } else {
      OtherKeepsCheckpoint(cfg, s, a, InsurancePolicy);
      OtherKeepsCheckpoint(cfg, s, a, ClaimRegistry);
      if a.FetchLogs? {
        FetchKeepsNonePassed(cfg, s);
      } else {
        OtherKeepsChunk(cfg, s, a);
      }
    }
  }

  lemma {:induction false} BlockRunKeeps(cfg: Config, s: State, acts: seq<Action>)
    requires ReadsOnlyFinalBlocks(cfg) && BlockInvariant(cfg, s) && Run(cfg, s, acts).Some?
    ensures BlockInvariant(cfg, Run(cfg, s, acts).value)
  {
    if acts != [] {
      hide BlockInvariant, Enabled, After;
      var n := |acts| - 1;
      BlockRunKeeps(cfg, s, acts[..n]);
      BlockStepKeeps(cfg, Run(cfg, s, acts[..n]).value, acts[n]);
    }
  }

  lemma BlockInvariantHolds(cfg: Config, s: State)
    requires ReadsOnlyFinalBlocks(cfg) && Reachable(cfg, s)
    ensures BlockInvariant(cfg, s)
  {
    hide Invariant, NonePassed;
    var init, acts :| Initial(cfg, init) && Run(cfg, init, acts) == Some(s);
    RunStartsReachable(cfg, init);
    LedgerInvariantHolds(cfg, init);
    NonePassedAtStart(cfg, init.chain, InsurancePolicy);
    NonePassedAtStart(cfg, init.chain, ClaimRegistry);
    BlockRunKeeps(cfg, init, acts);
  }

  /** No checkpoint ever passes a blocking log. */
  lemma BlockingIsNeverPassed(cfg: Config, s: State, c: Contract)
    requires ReadsOnlyFinalBlocks(cfg) && Reachable(cfg, s)
    ensures NoneBlocks(s.chain, c, cfg.Deploy(c), ResumeFrom(cfg, s.checkpoints, c))
  {
    hide Invariant, ChunkNonePassed, Reachable;
    BlockInvariantHolds(cfg, s);
    assert c == InsurancePolicy || c == ClaimRegistry;
  }

  lemma HeldInItsBlock(chain: Blocks, from: nat, end: nat, l: Log)
    requires BlockNumbersFit(chain) && l in LogsIn(chain, from, end)
    ensures from <= l.block < end && l in LogsIn(chain, from, l.block + 1)
  {
    hide LogsIn;
    LogsInBlocks(chain, from, end);
    LogsInSplit(chain, from, l.block + 1, end);
    LogsInBlocks(chain, l.block + 1, end);
  }

  /** A checkpoint past the block of a blocking log would have passed it. */
  lemma BlockingHoldsResumePoint(cfg: Config, chain: Blocks, c: Contract, resume: nat, l: Log)
    requires BlockNumbersFit(chain) && l in LogsIn(chain, cfg.Deploy(c), l.block + 1)
    requires l.contract == c && Blocking(l) && NonePassed(cfg, chain, c, resume, [])
    ensures resume <= l.block
  {
    hide LogsIn, OfContract;
    if l.block + 1 <= resume {
      HeldInItsBlock(chain, cfg.Deploy(c), l.block + 1, l);
      LogsInSplit(chain, cfg.Deploy(c), l.block + 1, resume);
      OfContractMembers(LogsIn(chain, cfg.Deploy(c), resume), c);
      assert false;
    }
  }

  /** A final blocking log stops its contract for good: whatever happens afterwards, the
      contract's scans resume at that log's block or before it. */
  lemma BlockingStopsContract(cfg: Config, s: State, l: Log, acts: seq<Action>, t: State)
    requires ReadsOnlyFinalBlocks(cfg) && Reachable(cfg, s) && Run(cfg, s, acts) == Some(t)
    requires l in LogsIn(s.chain, cfg.Deploy(l.contract), Frozen(cfg, s.peak)) && Blocking(l)
    ensures ResumeFrom(cfg, t.checkpoints, l.contract) <= l.block
  {
    hide Reachable, LogsIn, NonePassed, PhaseOk, LedgerOk, ChunkNonePassed, BlockAt, DistinctKeys;
    var c := l.contract;
    assert c == InsurancePolicy || c == ClaimRegistry;
    BlockInvariantHolds(cfg, s);
    BlockRunKeeps(cfg, s, acts);
    RunMovesWorld(cfg, s, acts);
    HeldInItsBlock(s.chain, cfg.Deploy(c), Frozen(cfg, s.peak), l);
    LogsInAgree(t.chain, s.chain, cfg.Deploy(c), l.block + 1);
    BlockingHoldsResumePoint(cfg, t.chain, c, ResumeFrom(cfg, t.checkpoints, c), l);
  }

  // ----- without such a log, a scan can go through

  /** `acts` leads from `s` to `t` on a chain that stays as it is. */
  predicate Steady(cfg: Config, s: State, acts: seq<Action>, t: State) {
    Run(cfg, s, acts) == Some(t) && t.chain == s.chain && t.peak == s.peak && s.ledger <= t.ledger
  }

  /** Handling `l` writes to a table, and the table rejects it. */
  predicate Rejected(ledger: seq<Log>, l: Log) {
    Recordable(l) && !Writable(l) && !InLedger(ledger, l.key)
  }

  predicate NoneRejected(ledger: seq<Log>, logs: seq<Log>) {
    forall l :: l in logs ==> !Rejected(ledger, l)
  }

  lemma StandsStill(cfg: Config, s: State)
    ensures Steady(cfg, s, [], s)
  {
  }

  lemma SteadyStep(cfg: Config, s: State, acts: seq<Action>, t: State, a: Action)
    requires Steady(cfg, s, acts, t) && Enabled(cfg, t, a) && !a.MoveChain?
    ensures Steady(cfg, s, acts + [a], After(cfg, t, a)) && t.ledger <= After(cfg, t, a).ledger
  {
    hide Run, InLedger, Apply, ReportFor, OfContract, LogsIn, WellFormed, BlockAt, Recordable, Writable;
    RunStep(cfg, s, acts, t, a);
  }

  lemma LedgerKeeps(ledger: seq<Log>, more: seq<Log>, logs: seq<Log>)
    requires ledger <= more
    ensures forall key :: InLedger(ledger, key) ==> InLedger(more, key)
    ensures NoneRejected(ledger, logs) ==> NoneRejected(more, logs)
  {
    hide Recordable, Writable;
    forall key | InLedger(ledger, key)
      ensures InLedger(more, key)
    {
      var i :| 0 <= i < |ledger| && ledger[i].key == key;
      assert more[i].key == key;
    }
  }

  /** How a stretch of a scan ended: every log of `logs` handled, or after one that its table rejected. */
  datatype Outcome = Done | Stopped(log: Log)

  /** A scan of `logs` stopped at `o.log`, which is a row now, and was none before. */
  predicate StoppedIn(before: seq<Log>, after: seq<Log>, logs: seq<Log>, o: Outcome) {
    o.Stopped? && o.log in logs && Rejected(before, o.log) && InLedger(after, o.log.key)
  }

  /** The log at hand is skipped, found again, or recorded, written to its table and perhaps reported; or
      recorded and rejected by its table, which ends the pass. */
  lemma HandlesNext(cfg: Config, s: State, acts: seq<Action>, t: State)
    returns (more: seq<Action>, u: State, o: Outcome)
    requires Steady(cfg, s, acts, t) && t.phase.Fetched? && t.phase.todo != [] && !Blocking(t.phase.todo[0])
    ensures Steady(cfg, s, more, u) && t.ledger <= u.ledger && u.checkpoints == t.checkpoints
    ensures o.Done? ==> u.phase == Fetched(t.phase.job, t.phase.cursor, t.phase.toBlock, t.phase.todo[1..])
    ensures o.Done? && Fail !in acts ==> Fail !in more
    ensures !o.Done? ==> u.phase.Idle? && o.log == t.phase.todo[0] && StoppedIn(t.ledger, u.ledger, [o.log], o)
  {
    hide Steady, InLedger, Apply, ReportFor, Recordable, Writable;
    var log := t.phase.todo[0];
    var a := if log.decoded.Throws? then SkipLog else InsertRaw;
    SteadyStep(cfg, s, acts, t, a);
    more, u, o := acts + [a], After(cfg, t, a), Done;
    if u.phase.Inserted? {
      if Writable(log) {
        SteadyStep(cfg, s, more, u, WriteTable);
        more, u := more + [WriteTable], After(cfg, u, WriteTable);
        if u.phase.Written? {
          SteadyStep(cfg, s, more, u, SendReport(true));
          more, u := more + [SendReport(true)], After(cfg, u, SendReport(true));
        }
      } else {
        NewestInLedger(u.ledger);
        SteadyStep(cfg, s, more, u, Fail);
        more, u, o := more + [Fail], After(cfg, u, Fail), Stopped(log);
      }
    }
  }

  lemma NewestInLedger(ledger: seq<Log>)
    ensures ledger != [] ==> InLedger(ledger, ledger[|ledger| - 1].key)
  {
  }

  lemma {:induction false} HandlesChunk(cfg: Config, s: State, acts: seq<Action>, t: State)
    returns (more: seq<Action>, u: State, o: Outcome)
    requires Steady(cfg, s, acts, t) && t.phase.Fetched? && OnlyIn(t.phase.todo, [])
    ensures Steady(cfg, s, more, u) && t.ledger <= u.ledger && u.checkpoints == t.checkpoints
    ensures o.Done? ==> u.phase == Fetched(t.phase.job, t.phase.cursor, t.phase.toBlock, [])
    ensures o.Done? && Fail !in acts ==> Fail !in more
    ensures !o.Done? ==> u.phase.Idle? && StoppedIn(t.ledger, u.ledger, t.phase.todo, o)
    decreases |t.phase.todo|
  {
    hide Steady, Rejected, Blocking, InLedger;
    more, u, o := acts, t, Done;
    var todo := t.phase.todo;
    if todo != [] {
      assert todo == [todo[0]] + todo[1..];
      more, u, o := HandlesNext(cfg, s, acts, t);
      if o.Done? {
        var ledger := u.ledger;
        more, u, o := HandlesChunk(cfg, s, more, u);
        LedgerKeeps(t.ledger, ledger, todo);
        if o.Stopped? {
          WasRejected(t.ledger, ledger, o.log);
        }
      }
    }
  }

  lemma WasRejected(before: seq<Log>, after: seq<Log>, l: Log)
    requires before <= after && Rejected(after, l)
    ensures Rejected(before, l)
  {
    LedgerKeeps(before, after, [l]);
  }

  lemma PartsOf(chain: Blocks, c: Contract, from: nat, mid: nat, end: nat)
    requires from <= mid <= end
    ensures OfContract(LogsIn(chain, from, end), c) ==
            OfContract(LogsIn(chain, from, mid), c) + OfContract(LogsIn(chain, mid, end), c)
  {
    hide LogsIn, OfContract;
    LogsInSplit(chain, from, mid, end);
    OfContractConcat(LogsIn(chain, from, mid), LogsIn(chain, mid, end), c);
  }

  /** What a stop in a later part of the logs is for the whole. */
  lemma StoppedInWhole(before: seq<Log>, between: seq<Log>, after: seq<Log>, part: seq<Log>, all: seq<Log>, o: Outcome)
    requires before <= between && StoppedIn(between, after, part, o) && forall l :: l in part ==> l in all
    ensures StoppedIn(before, after, all, o)
  {
    WasRejected(before, between, o.log);
  }

  /** Chunk after chunk up to the safe head, or to the first log that a table rejects. */
  lemma {:induction false} ScansOn(cfg: Config, s: State, acts: seq<Action>, t: State)
    returns (more: seq<Action>, u: State, o: Outcome)
    requires Steady(cfg, s, acts, t) && t.phase.Scanning? && t.phase.job.chunkSize >= 1
    requires t.phase.cursor == ResumeFrom(cfg, t.checkpoints, t.phase.job.contract) <= t.phase.job.safeHead + 1
    requires NoneBlocks(t.chain, t.phase.job.contract, t.phase.cursor, t.phase.job.safeHead + 1)
    ensures Steady(cfg, s, more, u) && t.ledger <= u.ledger && u.phase.Idle?
    ensures var job := t.phase.job;
            && (o.Done? ==>
                  u.checkpoints == if t.phase.cursor <= job.safeHead then t.checkpoints[job.contract := job.safeHead]
                                   else t.checkpoints)
            && (o.Stopped? ==>
                  && t.phase.cursor <= ResumeFrom(cfg, u.checkpoints, job.contract) <= job.safeHead
                  && StoppedIn(t.ledger, u.ledger,
                               OfContract(LogsIn(t.chain, t.phase.cursor, job.safeHead + 1), job.contract), o))
    ensures o.Done? && Fail !in acts ==> Fail !in more
    decreases t.phase.job.safeHead + 1 - t.phase.cursor
  {
    hide LogsIn, OfContract, OnlyIn, Run, InLedger, Apply, ReportFor, WellFormed, BlockAt;
    hide Recordable, Writable, StoppedIn;
    var job, cursor := t.phase.job, t.phase.cursor;
    if cursor > job.safeHead {
      SteadyStep(cfg, s, acts, t, FinishScan);
      more, u, o := acts + [FinishScan], After(cfg, t, FinishScan), Done;
    } else {
      var toBlock := ChunkEnd(cursor, job.chunkSize, job.safeHead);
      PartsOf(t.chain, job.contract, cursor, toBlock + 1, job.safeHead + 1);
      OnlyInParts(OfContract(LogsIn(t.chain, cursor, toBlock + 1), job.contract),
                  OfContract(LogsIn(t.chain, toBlock + 1, job.safeHead + 1), job.contract));
      SteadyStep(cfg, s, acts, t, FetchLogs);
      more, u, o := HandlesChunk(cfg, s, acts + [FetchLogs], After(cfg, t, FetchLogs));
      var all := OfContract(LogsIn(t.chain, cursor, job.safeHead + 1), job.contract);
      if o.Done? {
        SteadyStep(cfg, s, more, u, SaveCheckpoint);
        var saved := After(cfg, u, SaveCheckpoint);
        more, u, o := ScansOn(cfg, s, more + [SaveCheckpoint], saved);
        if o.Stopped? {
          StoppedInWhole(t.ledger, saved.ledger, u.ledger,
                         OfContract(LogsIn(t.chain, toBlock + 1, job.safeHead + 1), job.contract), all, o);
        }
      } else {
        StoppedInWhole(t.ledger, t.ledger, u.ledger,
                       OfContract(LogsIn(t.chain, cursor, toBlock + 1), job.contract), all, o);
      }
    }
  }

  lemma OnlyInParts(first: seq<Log>, second: seq<Log>)
    requires OnlyIn(first + second, [])
    ensures OnlyIn(first, []) && OnlyIn(second, [])
  {
    hide Blocking;
  }

  /** The checkpoints a scan of `c` that sees `head` is to leave. */
  function ScannedTo(cfg: Config, checkpoints: map<Contract, nat>, c: Contract, head: nat): map<Contract, nat> {
    if ResumeFrom(cfg, checkpoints, c) <= cfg.SafeHead(head) then checkpoints[c := cfg.SafeHead(head)] else checkpoints
  }

  /** The logs that a scan of `c` that sees `head` reads in state `s`. */
  function ToRead(cfg: Config, s: State, c: Contract, head: nat): seq<Log> {
    OfContract(LogsIn(s.chain, ResumeFrom(cfg, s.checkpoints, c), cfg.SafeHead(head) + 1), c)
  }

  /** One scan: from reading the head to the end, or to the first log that a table rejects. */
  lemma Scans(cfg: Config, s: State, acts: seq<Action>, t: State, c: Contract, chunkSize: nat, head: nat)
    returns (more: seq<Action>, u: State, o: Outcome)
    requires Steady(cfg, s, acts, t) && t.phase.Idle? && chunkSize >= 1 && head <= t.peak
    requires OnlyIn(ToRead(cfg, t, c, head), [])
    ensures Steady(cfg, s, more, u) && t.ledger <= u.ledger && u.phase.Idle?
    ensures o.Done? ==> u.checkpoints == ScannedTo(cfg, t.checkpoints, c, head)
    ensures o.Done? && Fail !in acts ==> Fail !in more
    ensures o.Stopped? ==>
              && ResumeFrom(cfg, t.checkpoints, c) <= ResumeFrom(cfg, u.checkpoints, c) <= cfg.SafeHead(head)
              && StoppedIn(t.ledger, u.ledger, ToRead(cfg, t, c, head), o)
  {
    hide OnlyIn, Run, StoppedIn, OfContract, LogsIn;
    SteadyStep(cfg, s, acts, t, ReadHead(c, chunkSize, head));
    more, u, o := acts + [ReadHead(c, chunkSize, head)], After(cfg, t, ReadHead(c, chunkSize, head)), Done;
    SteadyStep(cfg, s, more, u, ReadCheckpoint);
    more, u := more + [ReadCheckpoint], After(cfg, u, ReadCheckpoint);
    if u.phase.Scanning? {
      more, u, o := ScansOn(cfg, s, more, u);
    }
  }

  // ----- scanning again gets past what a table rejects

  /** How many of `logs` are not rows yet. */
  function Missing(logs: seq<Log>, ledger: seq<Log>): nat {
    if logs == [] then 0 else
    Missing(logs[..|logs| - 1], ledger) + if InLedger(ledger, logs[|logs| - 1].key) then 0 else 1
  }

  lemma {:induction false} MissingShrinks(logs: seq<Log>, before: seq<Log>, after: seq<Log>, l: Log)
    requires before <= after
    ensures Missing(logs, after) <= Missing(logs, before)
    ensures l in logs && !InLedger(before, l.key) && InLedger(after, l.key) ==>
              Missing(logs, after) < Missing(logs, before)
  {
    if logs != [] {
      hide InLedger;
      MissingShrinks(logs[..|logs| - 1], before, after, l);
      LedgerKeeps(before, after, []);
      assert logs == logs[..|logs| - 1] + [logs[|logs| - 1]];
    }
  }

  /** A log its table rejects ends one pass, but its raw row stays: the next pass skips it. */
  lemma {:induction false} ScansAgain(cfg: Config, s: State, acts: seq<Action>, t: State, c: Contract, head: nat,
                                      logs: seq<Log>)
    returns (more: seq<Action>, u: State)
    requires Steady(cfg, s, acts, t) && t.phase.Idle? && head <= t.peak
    requires ResumeFrom(cfg, t.checkpoints, c) <= cfg.SafeHead(head)
    requires OnlyIn(ToRead(cfg, t, c, head), []) && forall l :: l in ToRead(cfg, t, c, head) ==> l in logs
    ensures Steady(cfg, s, more, u) && u.phase.Idle? && Reaches(u, c, cfg.SafeHead(head))
    decreases Missing(logs, t.ledger)
  {
    hide OnlyIn, Run, Recordable, Writable, InLedger, OfContract, LogsIn;
    var o;
    more, u, o := Scans(cfg, s, acts, t, c, 1, head);
    if o.Stopped? {
      MissingShrinks(logs, t.ledger, u.ledger, o.log);
      PartsOf(t.chain, c, ResumeFrom(cfg, t.checkpoints, c), ResumeFrom(cfg, u.checkpoints, c), cfg.SafeHead(head) + 1);
      OnlyInParts(OfContract(LogsIn(t.chain, ResumeFrom(cfg, t.checkpoints, c), ResumeFrom(cfg, u.checkpoints, c)), c),
                  ToRead(cfg, u, c, head));
      more, u := ScansAgain(cfg, s, more, u, c, head, logs);
    }
  }

  /** `c` is checked off up to block `b`. */
  predicate Reaches(s: State, c: Contract, b: nat) {
    c in s.checkpoints && b <= s.checkpoints[c]
  }

  // ----- exactly when

  /** Some run from `s`, failures and chain movements included, checks `c` off up to block `b`. */
  ghost predicate CanReach(cfg: Config, s: State, c: Contract, b: nat) {
    exists acts, t :: Run(cfg, s, acts) == Some(t) && Reaches(t, c, b)
  }

  lemma BlockingOf(chain: Blocks, c: Contract, from: nat, end: nat) returns (l: Log)
    requires !NoneBlocks(chain, c, from, end)
    ensures l in LogsIn(chain, from, end) && l.contract == c && Blocking(l)
  {
    hide LogsIn, OfContract, Blocking;
    l :| l in OfContract(LogsIn(chain, from, end), c) && Blocking(l);
    OfContractMembers(LogsIn(chain, from, end), c);
  }

  /** What no run gets past: a blocking log between the resume point and a block that is final. */
  lemma BlockingStops(cfg: Config, s: State, c: Contract, b: nat, acts: seq<Action>, t: State)
    requires ReadsOnlyFinalBlocks(cfg) && Reachable(cfg, s) && Run(cfg, s, acts) == Some(t)
    requires b < Frozen(cfg, s.peak) && !NoneBlocks(s.chain, c, ResumeFrom(cfg, s.checkpoints, c), b + 1)
    ensures !Reaches(t, c, b)
  {
    hide Reachable, LogsIn, NoneBlocks, LedgerOk, PhaseOk, DistinctKeys, Blocking;
    LedgerInvariantHolds(cfg, s);
    var from := ResumeFrom(cfg, s.checkpoints, c);
    var l := BlockingOf(s.chain, c, from, b + 1);
    HeldInItsBlock(s.chain, from, b + 1, l);
    assert cfg.Deploy(c) <= from by { ResumesAfterDeploy(cfg, s, c); }
    LogsInSplit(s.chain, cfg.Deploy(c), from, b + 1);
    LogsInSplit(s.chain, cfg.Deploy(c), b + 1, Frozen(cfg, s.peak));
    BlockingStopsContract(cfg, s, l, acts, t);
  }

  lemma ResumesAfterDeploy(cfg: Config, s: State, c: Contract)
    requires Invariant(cfg, s)
    ensures cfg.Deploy(c) <= ResumeFrom(cfg, s.checkpoints, c)
  {
    hide WorldOk, PhaseOk, Covers, Final, Due, OfContract;
    assert c == InsurancePolicy || c == ClaimRegistry;
  }

  /** A safe head with something left to read is a final block. */
  lemma SafeHeadIsFinal(cfg: Config, peak: nat, c: Contract, head: nat)
    requires ReadsOnlyFinalBlocks(cfg) && head <= peak && cfg.Deploy(c) <= cfg.SafeHead(head)
    ensures cfg.SafeHead(head) < Frozen(cfg, peak)
  {
  }

  /** From any reachable state between scans, the checkpoint of `c` can reach the safe head of `head`, in one
      pass or several, if and only if no log of `c` in the blocks still to be read is blocking. */
  lemma SafeHeadReachedExactly(cfg: Config, s: State, c: Contract, head: nat)
    requires ReadsOnlyFinalBlocks(cfg) && Reachable(cfg, s) && s.phase.Idle? && head <= s.peak
    requires ResumeFrom(cfg, s.checkpoints, c) <= cfg.SafeHead(head)
    ensures CanReach(cfg, s, c, cfg.SafeHead(head)) <==> forall l :: l in ToRead(cfg, s, c, head) ==> !Blocking(l)
  {
    hide Reachable, Frozen, Run, LedgerOk, PhaseOk, WorldOk, OfContract, LogsIn, Blocking;
    if OnlyIn(ToRead(cfg, s, c, head), []) {
      StandsStill(cfg, s);
      var acts, t := ScansAgain(cfg, s, [], s, c, head, ToRead(cfg, s, c, head));
      assert Reaches(t, c, cfg.SafeHead(head));
    } else {
      LedgerInvariantHolds(cfg, s);
      ResumesAfterDeploy(cfg, s, c);
      SafeHeadIsFinal(cfg, s.peak, c, head);
      forall acts, t | Run(cfg, s, acts) == Some(t)
        ensures !Reaches(t, c, cfg.SafeHead(head))
      {
        BlockingStops(cfg, s, c, cfg.SafeHead(head), acts, t);
      }
    }
  }

  // ----- samples

  /** Under every safe configuration a chain whose one log is blocking and in its contract's deploy block
      keeps that contract from ever being checked off, though there is a block to read. */
  lemma OneLogStopsIndexing(cfg: Config, log: Log) returns (init: State)
    requires ReadsOnlyFinalBlocks(cfg) && DecodedByOwnAbi([log])
    requires log.block == cfg.Deploy(log.contract) && Blocking(log)
    ensures Initial(cfg, init) && init.chain == OneLog(log.block + cfg.margin, log)
    ensures ResumeFrom(cfg, init.checkpoints, log.contract) <= cfg.SafeHead(init.peak)
    ensures forall acts, t | Run(cfg, init, acts) == Some(t) :: log.contract !in t.checkpoints
  {
    hide WellFormed, LogsIn, Run, LedgerOk, PhaseOk, Reachable, OneLog, Blocking;
    var c, d := log.contract, log.block;
    var head := d + cfg.margin;
    OneLogWellFormed(head, log);
    init := State(OneLog(head, log), head, [], EMPTY_TABLES, map[], Idle, {}, [], []);
    RunStartsReachable(cfg, init);
    OfContractMembers(LogsIn(init.chain, d, d + 1), c);
    LogsInSplit(init.chain, d, d + 1, Frozen(cfg, head));
    forall acts, t | Run(cfg, init, acts) == Some(t)
      ensures c !in t.checkpoints
    {
      LedgerInvariantHolds(cfg, init);
      RunKeeps(cfg, init, acts);
      BlockingStopsContract(cfg, init, log, acts, t);
      CheckpointIsPastDeploy(cfg, t, c);
    }
  }

  lemma CheckpointIsPastDeploy(cfg: Config, s: State, c: Contract)
    requires Invariant(cfg, s)
    ensures c in s.checkpoints ==> cfg.Deploy(c) <= s.checkpoints[c]
  {
    hide WorldOk, PhaseOk, Covers, Final, Due, OfContract;
    assert c == InsurancePolicy || c == ClaimRegistry;
  }

  /** A log of `c` that `c`'s ABI does not name, such as a policy contract's PremiumPaid. */
  function UnmatchedLog(c: Contract, b: nat): Log {
    Log(c, b, Key("a", 0), NoMatch)
  }

  /** The approval of claim 1. */
  function ApprovalLog(b: nat): Log {
    Log(ClaimRegistry, b, Key("a", 0), Known(ClaimStatusChanged(1, 2)))
  }

  lemma OneUnmatchedLogStopsIndexing(cfg: Config, c: Contract) returns (init: State)
    requires ReadsOnlyFinalBlocks(cfg)
    ensures Initial(cfg, init) && ResumeFrom(cfg, init.checkpoints, c) <= cfg.SafeHead(init.peak)
    ensures init.chain == OneLog(cfg.Deploy(c) + cfg.margin, UnmatchedLog(c, cfg.Deploy(c)))
    ensures forall acts, t | Run(cfg, init, acts) == Some(t) :: c !in t.checkpoints
  {
    hide Initial, Run, OneLog;
    init := OneLogStopsIndexing(cfg, UnmatchedLog(c, cfg.Deploy(c)));
  }

  /** So does an approval: its status is a bigint, which no JSON can hold. */
  lemma OneApprovalStopsIndexing(cfg: Config) returns (init: State)
    requires ReadsOnlyFinalBlocks(cfg)
    ensures Initial(cfg, init) && ResumeFrom(cfg, init.checkpoints, ClaimRegistry) <= cfg.SafeHead(init.peak)
    ensures init.chain == OneLog(cfg.claimDeploy + cfg.margin, ApprovalLog(cfg.claimDeploy))
    ensures forall acts, t | Run(cfg, init, acts) == Some(t) :: ClaimRegistry !in t.checkpoints
  {
    hide Initial, Run, OneLog, Recordable;
    StatusChangesAreUnrecordable(ApprovalLog(cfg.claimDeploy));
    init := OneLogStopsIndexing(cfg, ApprovalLog(cfg.claimDeploy));
  }
}
