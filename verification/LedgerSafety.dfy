/** The raw-event ledger against the chain: for which configurations it always holds, per contract and
    in chain order, exactly a prefix of the final logs that reaches at least to the checkpoint. */
module LedgerSafety {
  import opened Wrappers
  import opened Chain
  import opened Projection
  import opened Storage
  import opened IndexerMachine

  /** The rows of one contract that blocks up to `end` call for. */
  function Due(cfg: Config, chain: Blocks, c: Contract, end: nat): seq<Log> {
    Expected(chain, c, cfg.Deploy(c), end)
  }

  /** The rows of one contract that all final blocks call for. */
  function Final(cfg: Config, s: State, c: Contract): seq<Log> {
    Due(cfg, s.chain, c, Frozen(cfg, s.peak))
  }

  /** One contract's rows are the logs due from its deploy block on, in order and without repetition,
      cut off somewhere between the checkpoint and the newest final block. */
  predicate Faithful(cfg: Config, s: State, c: Contract) {
    var rows := OfContract(s.ledger, c);
    && Due(cfg, s.chain, c, ResumeFrom(cfg, s.checkpoints, c)) <= rows <= Final(cfg, s, c)
    && DistinctKeys(rows)
  }

  /** The configurations under which no pass reads a block that may still be replaced. */
  predicate ReadsOnlyFinalBlocks(cfg: Config) {
    cfg.depth == 0 || (cfg.margin >= cfg.depth && cfg.policyDeploy >= 1 && cfg.claimDeploy >= 1)
  }

  // ----- the invariant

  /** `rows` has all of `due` except the logs still in `todo`, which end `due`. */
  predicate Covers(due: seq<Log>, rows: seq<Log>, todo: seq<Log>) {
    var rest := Recognised(todo);
    && |rest| <= |due|
    && due[|due| - |rest|..] == rest
    && due[..|due| - |rest|] <= rows
  }

  predicate WorldOk(cfg: Config, s: State) {
    WellFormed(s.chain) && |s.chain| <= s.peak + 1 && Frozen(cfg, s.peak) <= |s.chain|
  }

  predicate LedgerOk(cfg: Config, s: State, c: Contract) {
    && OfContract(s.ledger, c) <= Final(cfg, s, c)
    && (c in s.checkpoints ==>
          && cfg.Deploy(c) <= s.checkpoints[c] < Frozen(cfg, s.peak)
          && Covers(Due(cfg, s.chain, c, s.checkpoints[c] + 1), OfContract(s.ledger, c), []))
  }

  predicate JobOk(cfg: Config, s: State, job: Job) {
    job.chunkSize >= 1 && job.safeHead <= cfg.SafeHead(s.peak)
  }

  /** A scan reads final blocks only and stands where the checkpoint says. */
  predicate ScanOk(cfg: Config, s: State, job: Job, cursor: nat) {
    && JobOk(cfg, s, job) && job.safeHead < Frozen(cfg, s.peak)
    && cfg.Deploy(job.contract) <= cursor <= job.safeHead + 1
    && cursor == ResumeFrom(cfg, s.checkpoints, job.contract)
  }

  predicate ChunkOk(cfg: Config, s: State, job: Job, cursor: nat, toBlock: nat, todo: seq<Log>) {
    && ScanOk(cfg, s, job, cursor) && cursor <= toBlock == ChunkEnd(cursor, job.chunkSize, job.safeHead)
    && (forall l :: l in todo ==> l.contract == job.contract)
    && Covers(Due(cfg, s.chain, job.contract, toBlock + 1), OfContract(s.ledger, job.contract), todo)
  }

  predicate PhaseOk(cfg: Config, s: State) {
    match s.phase
    case Idle => true
    case SawHead(job) => JobOk(cfg, s, job)
    case Scanning(job, cursor) =>
      && ScanOk(cfg, s, job, cursor)
      && Covers(Due(cfg, s.chain, job.contract, cursor), OfContract(s.ledger, job.contract), [])
    case Fetched(job, cursor, toBlock, todo) => ChunkOk(cfg, s, job, cursor, toBlock, todo)
    case Inserted(job, cursor, toBlock, _, todo) => ChunkOk(cfg, s, job, cursor, toBlock, todo)
    case Written(job, cursor, toBlock, _, _, todo) => ChunkOk(cfg, s, job, cursor, toBlock, todo)
  }

  predicate Invariant(cfg: Config, s: State) {
    && WorldOk(cfg, s)
    && LedgerOk(cfg, s, InsurancePolicy) && LedgerOk(cfg, s, ClaimRegistry)
    && PhaseOk(cfg, s)
  }

  // ----- rows as sequences

  lemma RecognisedCons(todo: seq<Log>)
    requires todo != []
    ensures Recognised(todo) == (if todo[0].decoded.Known? then [todo[0]] else []) + Recognised(todo[1..])
  {
    assert todo == [todo[0]] + todo[1..];
    RecognisedConcat([todo[0]], todo[1..]);
  }

  lemma CoversSkip(due: seq<Log>, rows: seq<Log>, todo: seq<Log>)
    requires Covers(due, rows, todo) && todo != [] && !todo[0].decoded.Known?
    ensures Covers(due, rows, todo[1..])
  {
    RecognisedCons(todo);
    assert Recognised(todo) == Recognised(todo[1..]);
  }

  /** With `rows` a prefix of `final` holding its first `k`, element `k` is in `rows` exactly when
      `rows` is longer than `k`. */
  lemma PrefixMember(rows: seq<Log>, final: seq<Log>, k: nat)
    requires rows <= final && k < |final| && final[..k] <= rows && DistinctKeys(final)
    ensures final[k] in rows ==> final[..k + 1] <= rows
    ensures final[k] !in rows ==> rows == final[..k]
  {
    assert forall i :: 0 <= i < |rows| ==> rows[i] == final[i];
    if k < |rows| {
      assert rows[k] in rows;
    }
  }

  /** The next log is either in the ledger already, or it extends the ledger's rows along the chain. */
  lemma CoversNext(due: seq<Log>, final: seq<Log>, rows: seq<Log>, todo: seq<Log>)
    requires Covers(due, rows, todo) && todo != [] && todo[0].decoded.Known?
    requires due <= final && rows <= final && DistinctKeys(final)
    ensures todo[0] in final
    ensures todo[0] in rows ==> Covers(due, rows, todo[1..])
    ensures todo[0] !in rows ==> rows + [todo[0]] <= final && Covers(due, rows + [todo[0]], todo[1..])
  {
    RecognisedCons(todo);
    hide Recognised;
    var rest := Recognised(todo[1..]);
    var k := |due| - |rest| - 1;
    assert due[k..] == [todo[0]] + rest;
    assert due[k] == due[k..][0] == final[k];
    assert due[k + 1..] == due[k..][1..] == rest;
    assert due[..k] == final[..k];
    assert due[..k + 1] == final[..k + 1] == final[..k] + [final[k]];
    PrefixMember(rows, final, k);
  }

  lemma CoversFetched(due: seq<Log>, rows: seq<Log>, todo: seq<Log>)
    requires Covers(due, rows, [])
    ensures Covers(due + Recognised(todo), rows, todo)
  {
    var more := due + Recognised(todo);
    assert more[..|due|] == due == due[..|due|];
  }

  // ----- expected logs

  lemma ExpectedIsPrefix(chain: Blocks, c: Contract, from: nat, mid: nat, end: nat)
    requires mid <= end
    ensures Expected(chain, c, from, mid) <= Expected(chain, c, from, end)
  {
    if from <= mid {
      ExpectedSplit(chain, c, from, mid, end);
    }
  }

  lemma DueIsPrefix(cfg: Config, chain: Blocks, c: Contract, mid: nat, end: nat)
    requires mid <= end
    ensures Due(cfg, chain, c, mid) <= Due(cfg, chain, c, end)
  {
    ExpectedIsPrefix(chain, c, cfg.Deploy(c), mid, end);
  }

  lemma DueBeforeFinal(cfg: Config, s: State, c: Contract, end: nat)
    requires end <= Frozen(cfg, s.peak)
    ensures Due(cfg, s.chain, c, end) <= Final(cfg, s, c)
  {
    hide Due;
    DueIsPrefix(cfg, s.chain, c, end, Frozen(cfg, s.peak));
  }

  lemma FinalDistinct(cfg: Config, s: State, c: Contract)
    requires WorldOk(cfg, s)
    ensures DistinctKeys(Final(cfg, s, c))
    ensures forall l :: l in Final(cfg, s, c) ==> l in LogsIn(s.chain, 0, |s.chain|)
  {
    hide WellFormed, Expected, LogsIn, DistinctKeys;
    ExpectedDistinct(s.chain, c, cfg.Deploy(c), Frozen(cfg, s.peak));
  }

  /** Blocks that were final before the chain moved still hold the same logs. */
  lemma FinalLogsStay(cfg: Config, s: State, newChain: Blocks, c: Contract, end: nat)
    requires Enabled(cfg, s, MoveChain(newChain)) && end <= Frozen(cfg, s.peak)
    ensures Due(cfg, newChain, c, end) == Due(cfg, s.chain, c, end)
  {
    LogsInAgree(newChain, s.chain, cfg.Deploy(c), end);
  }

  /** Two logs of one chain with the same key are the same log. */
  lemma SameKeySameLog(chain: Blocks, l: Log, m: Log)
    requires WellFormed(chain) && l in LogsIn(chain, 0, |chain|) && m in LogsIn(chain, 0, |chain|)
    requires l.key == m.key
    ensures l == m
  {
    hide LogsIn, BlockNumbersFit, DecodedByOwnAbi;
    var logs := LogsIn(chain, 0, |chain|);
    var i :| 0 <= i < |logs| && logs[i] == l;
    var j :| 0 <= j < |logs| && logs[j] == m;
    assert !(i < j) && !(j < i);
  }

  /** Every row is a log that some final block holds. */
  lemma RowsAreOnChain(cfg: Config, s: State, e: Log)
    requires WorldOk(cfg, s) && LedgerOk(cfg, s, InsurancePolicy) && LedgerOk(cfg, s, ClaimRegistry) && e in s.ledger
    ensures e in LogsIn(s.chain, 0, |s.chain|)
  {
    hide WellFormed, Final, DistinctKeys, LogsIn;
    OfContractMembers(s.ledger, e.contract);
    assert e.contract == InsurancePolicy || e.contract == ClaimRegistry;
    FinalDistinct(cfg, s, e.contract);
  }

  /** What the ledger holds is what some final block holds, so its unique key is decisive. */
  lemma KeyDecides(cfg: Config, s: State, log: Log)
    requires WorldOk(cfg, s) && LedgerOk(cfg, s, InsurancePolicy) && LedgerOk(cfg, s, ClaimRegistry)
    requires log in LogsIn(s.chain, 0, |s.chain|)
    ensures InLedger(s.ledger, log.key) <==> log in s.ledger
  {
    hide WellFormed, Final, DistinctKeys, LedgerOk, LogsIn;
    if InLedger(s.ledger, log.key) {
      var i :| 0 <= i < |s.ledger| && s.ledger[i].key == log.key;
      RowsAreOnChain(cfg, s, s.ledger[i]);
      SameKeySameLog(s.chain, s.ledger[i], log);
    }
  }

  // ----- each step keeps the invariant

  lemma MoveKeepsLedger(cfg: Config, s: State, newChain: Blocks, c: Contract)
    requires LedgerOk(cfg, s, c) && Enabled(cfg, s, MoveChain(newChain))
    ensures LedgerOk(cfg, After(cfg, s, MoveChain(newChain)), c)
  {
    hide Covers, WellFormed, Due, OfContract;
    var t := After(cfg, s, MoveChain(newChain));
    FinalLogsStay(cfg, s, newChain, c, Frozen(cfg, s.peak));
    DueIsPrefix(cfg, newChain, c, Frozen(cfg, s.peak), Frozen(cfg, t.peak));
    if c in s.checkpoints {
      FinalLogsStay(cfg, s, newChain, c, s.checkpoints[c] + 1);
    }
  }

  lemma MoveKeepsPhase(cfg: Config, s: State, newChain: Blocks)
    requires PhaseOk(cfg, s) && Enabled(cfg, s, MoveChain(newChain))
    ensures PhaseOk(cfg, After(cfg, s, MoveChain(newChain)))
  {
    hide Covers, WellFormed, Due;
    match s.phase
    case Idle =>
    case SawHead(_) =>
    case Scanning(job, cursor) => FinalLogsStay(cfg, s, newChain, job.contract, cursor);
    case Fetched(job, _, toBlock, todo) => FinalLogsStay(cfg, s, newChain, job.contract, toBlock + 1);
    case Inserted(job, _, toBlock, _, todo) => FinalLogsStay(cfg, s, newChain, job.contract, toBlock + 1);
    case Written(job, _, toBlock, _, _, todo) => FinalLogsStay(cfg, s, newChain, job.contract, toBlock + 1);
  }

  lemma NothingDueYet(cfg: Config, chain: Blocks, c: Contract, rows: seq<Log>)
    ensures Covers(Due(cfg, chain, c, cfg.Deploy(c)), rows, [])
  {
  }

  lemma CheckpointReadKeeps(cfg: Config, s: State)
    requires ReadsOnlyFinalBlocks(cfg) && Invariant(cfg, s) && s.phase.SawHead?
    ensures PhaseOk(cfg, After(cfg, s, ReadCheckpoint))
  {
    hide Due, OfContract, Covers, WellFormed;
    var c := s.phase.job.contract;
    assert c == InsurancePolicy || c == ClaimRegistry;
    NothingDueYet(cfg, s.chain, c, OfContract(s.ledger, c));
  }

  lemma FetchedIsDue(cfg: Config, chain: Blocks, c: Contract, cursor: nat, end: nat, rows: seq<Log>)
    requires cfg.Deploy(c) <= cursor <= end && Covers(Due(cfg, chain, c, cursor), rows, [])
    ensures Covers(Due(cfg, chain, c, end), rows, OfContract(LogsIn(chain, cursor, end), c))
    ensures forall l :: l in OfContract(LogsIn(chain, cursor, end), c) ==> l.contract == c
  {
    ExpectedSplit(chain, c, cfg.Deploy(c), cursor, end);
    OfContractMembers(LogsIn(chain, cursor, end), c);
    CoversFetched(Due(cfg, chain, c, cursor), rows, OfContract(LogsIn(chain, cursor, end), c));
  }

  lemma FetchKeeps(cfg: Config, s: State)
    requires Invariant(cfg, s) && Enabled(cfg, s, FetchLogs)
    ensures PhaseOk(cfg, After(cfg, s, FetchLogs))
  {
    hide Due, Covers, WellFormed, LogsIn, OfContract;
    var job, cursor := s.phase.job, s.phase.cursor;
    var end := ChunkEnd(cursor, job.chunkSize, job.safeHead) + 1;
    FetchedIsDue(cfg, s.chain, job.contract, cursor, end, OfContract(s.ledger, job.contract));
  }

  lemma SkipKeeps(cfg: Config, s: State)
    requires Invariant(cfg, s) && Enabled(cfg, s, SkipLog)
    ensures PhaseOk(cfg, After(cfg, s, SkipLog))
  {
    hide Covers, Due, OfContract;
    var c := s.phase.job.contract;
    CoversSkip(Due(cfg, s.chain, c, s.phase.toBlock + 1), OfContract(s.ledger, c), s.phase.todo);
  }

  /** What `CoversNext` and `KeyDecides` say about the log at hand. */
  lemma NextLog(cfg: Config, s: State, c: Contract, end: nat, todo: seq<Log>)
    requires WorldOk(cfg, s) && LedgerOk(cfg, s, InsurancePolicy) && LedgerOk(cfg, s, ClaimRegistry)
    requires end <= Frozen(cfg, s.peak) && Covers(Due(cfg, s.chain, c, end), OfContract(s.ledger, c), todo)
    requires todo != [] && todo[0].decoded.Known? && todo[0].contract == c
    ensures var due, rows := Due(cfg, s.chain, c, end), OfContract(s.ledger, c);
            && (InLedger(s.ledger, todo[0].key) ==> Covers(due, rows, todo[1..]))
            && (!InLedger(s.ledger, todo[0].key) ==>
                  rows + [todo[0]] <= Final(cfg, s, c) && Covers(due, rows + [todo[0]], todo[1..]))
  {
    hide Covers, Due, OfContract, WellFormed, DistinctKeys, Final, InLedger;
    assert c == InsurancePolicy || c == ClaimRegistry;
    DueBeforeFinal(cfg, s, c, end);
    FinalDistinct(cfg, s, c);
    CoversNext(Due(cfg, s.chain, c, end), Final(cfg, s, c), OfContract(s.ledger, c), todo);
    KeyDecides(cfg, s, todo[0]);
    OfContractMembers(s.ledger, c);
  }

  /** The rows a checkpoint answers for stay there when a row is added. */
  lemma CoversMore(cfg: Config, s: State, c: Contract, rows: seq<Log>)
    requires LedgerOk(cfg, s, c) && OfContract(s.ledger, c) <= rows
    ensures c in s.checkpoints ==> Covers(Due(cfg, s.chain, c, s.checkpoints[c] + 1), rows, [])
  {
    hide Due, OfContract;
  }

  lemma InsertKeeps(cfg: Config, s: State)
    requires Invariant(cfg, s) && Enabled(cfg, s, InsertRaw)
    ensures Invariant(cfg, After(cfg, s, InsertRaw))
  {
    hide Due, OfContract, Covers, WellFormed, Serialisable, EventData, Writable;
    var log := s.phase.todo[0];
    assert log in s.phase.todo;
    NextLog(cfg, s, s.phase.job.contract, s.phase.toBlock + 1, s.phase.todo);
    CoversMore(cfg, s, InsurancePolicy, OfContract(s.ledger, InsurancePolicy) + [log]);
    CoversMore(cfg, s, ClaimRegistry, OfContract(s.ledger, ClaimRegistry) + [log]);
    OfContractSnoc(s.ledger, log, InsurancePolicy);
    OfContractSnoc(s.ledger, log, ClaimRegistry);
  }

  lemma SaveKeeps(cfg: Config, s: State)
    requires Invariant(cfg, s) && Enabled(cfg, s, SaveCheckpoint)
    ensures Invariant(cfg, After(cfg, s, SaveCheckpoint))
  {
    hide Due, OfContract, Covers, WellFormed;
  }

  lemma OtherKeepsLedger(cfg: Config, s: State, a: Action, c: Contract)
    requires WorldOk(cfg, s) && LedgerOk(cfg, s, c) && Enabled(cfg, s, a)
    requires !a.MoveChain? && !a.InsertRaw? && !a.SaveCheckpoint?
    ensures WorldOk(cfg, After(cfg, s, a)) && LedgerOk(cfg, After(cfg, s, a), c)
  {
    hide Due, OfContract, Covers, WellFormed, Apply, ReportFor, BlockAt, LogsIn;
  }

  lemma OtherKeepsPhase(cfg: Config, s: State, a: Action)
    requires PhaseOk(cfg, s) && Enabled(cfg, s, a)
    requires a.ReadHead? || a.FinishScan? || a.WriteTable? || a.SendReport? || a.Fail?
    ensures PhaseOk(cfg, After(cfg, s, a))
  {
    hide Due, OfContract, Covers, Apply, ReportFor;
  }

  lemma MoveKeeps(cfg: Config, s: State, newChain: Blocks)
    requires Invariant(cfg, s) && Enabled(cfg, s, MoveChain(newChain))
    ensures Invariant(cfg, After(cfg, s, MoveChain(newChain)))
  {
    hide LedgerOk, PhaseOk, WellFormed, BlockAt;
    MoveKeepsLedger(cfg, s, newChain, InsurancePolicy);
    MoveKeepsLedger(cfg, s, newChain, ClaimRegistry);
    MoveKeepsPhase(cfg, s, newChain);
  }

  lemma StepKeeps(cfg: Config, s: State, a: Action)
    requires ReadsOnlyFinalBlocks(cfg) && Invariant(cfg, s) && Enabled(cfg, s, a)
    ensures Invariant(cfg, After(cfg, s, a))
  {
    hide WorldOk, LedgerOk, PhaseOk, Enabled, After, ReadsOnlyFinalBlocks;
    match a
    case MoveChain(newChain) => MoveKeeps(cfg, s, newChain);
    case InsertRaw => InsertKeeps(cfg, s);
    case SaveCheckpoint => SaveKeeps(cfg, s);
    case _ =>
      OtherKeepsLedger(cfg, s, a, InsurancePolicy);
      OtherKeepsLedger(cfg, s, a, ClaimRegistry);
      OtherPhase(cfg, s, a);
  }

  lemma OtherPhase(cfg: Config, s: State, a: Action)
    requires ReadsOnlyFinalBlocks(cfg) && Invariant(cfg, s) && Enabled(cfg, s, a)
    requires !a.MoveChain? && !a.InsertRaw? && !a.SaveCheckpoint?
    ensures PhaseOk(cfg, After(cfg, s, a))
  {
    hide WorldOk, LedgerOk, PhaseOk, After, ReadsOnlyFinalBlocks;
    match a
    case ReadCheckpoint => CheckpointReadKeeps(cfg, s);
    case FetchLogs => FetchKeeps(cfg, s);
    case SkipLog => SkipKeeps(cfg, s);
    case _ => OtherKeepsPhase(cfg, s, a);
  }

  lemma {:induction false} RunKeeps(cfg: Config, init: State, acts: seq<Action>)
    requires ReadsOnlyFinalBlocks(cfg) && Invariant(cfg, init) && Run(cfg, init, acts).Some?
    ensures Invariant(cfg, Run(cfg, init, acts).value)
  {
    if acts != [] {
      hide Invariant, Enabled, After;
      var n := |acts| - 1;
      RunKeeps(cfg, init, acts[..n]);
      StepKeeps(cfg, Run(cfg, init, acts[..n]).value, acts[n]);
    }
  }

  lemma PrefixDistinct(rows: seq<Log>, all: seq<Log>)
    requires rows <= all && DistinctKeys(all)
    ensures DistinctKeys(rows)
  {
    assert forall i :: 0 <= i < |rows| ==> rows[i] == all[i];
  }

  lemma CoversAll(due: seq<Log>, rows: seq<Log>)
    requires Covers(due, rows, [])
    ensures due <= rows
  {
    assert due[..|due|] == due;
  }

  lemma InvariantIsFaithful(cfg: Config, s: State, c: Contract)
    requires WorldOk(cfg, s) && LedgerOk(cfg, s, c)
    ensures Faithful(cfg, s, c)
  {
    hide OfContract, WellFormed, DistinctKeys, Due, Covers, Final;
    var rows := OfContract(s.ledger, c);
    FinalDistinct(cfg, s, c);
    PrefixDistinct(rows, Final(cfg, s, c));
    NothingDueYet(cfg, s.chain, c, rows);
    CoversAll(Due(cfg, s.chain, c, ResumeFrom(cfg, s.checkpoints, c)), rows);
  }

  lemma LedgerInvariantHolds(cfg: Config, s: State)
    requires ReadsOnlyFinalBlocks(cfg) && Reachable(cfg, s)
    ensures Invariant(cfg, s)
  {
    hide WellFormed, Due;
    var init, acts :| Initial(cfg, init) && Run(cfg, init, acts) == Some(s);
    assert OfContract([], InsurancePolicy) == OfContract([], ClaimRegistry) == [];
    assert Invariant(cfg, init);
    RunKeeps(cfg, init, acts);
  }

  /** Whatever fails and however the head moves: with a safe configuration, each contract's ledger is
      always a duplicate-free prefix of the final logs, complete up to the checkpoint. */
  lemma LedgerIsFaithful(cfg: Config, s: State, c: Contract)
    requires ReadsOnlyFinalBlocks(cfg) && Reachable(cfg, s)
    ensures Faithful(cfg, s, c)
  {
    hide WorldOk, LedgerOk, PhaseOk, Reachable, Faithful;
    LedgerInvariantHolds(cfg, s);
    assert c == InsurancePolicy || c == ClaimRegistry;
    InvariantIsFaithful(cfg, s, c);
  }

  /** The question the insert's unique key answers is the right one: of the logs on the chain, the key
      finds exactly those that are rows. */
  lemma UniqueKeyIsDecisive(cfg: Config, s: State, log: Log)
    requires ReadsOnlyFinalBlocks(cfg) && Reachable(cfg, s) && log in LogsIn(s.chain, 0, |s.chain|)
    ensures InLedger(s.ledger, log.key) <==> log in s.ledger
  {
    hide WorldOk, LedgerOk, PhaseOk, Reachable, InLedger;
    LedgerInvariantHolds(cfg, s);
    KeyDecides(cfg, s, log);
  }
}
