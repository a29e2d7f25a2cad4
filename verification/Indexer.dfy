/** The indexer as the service runs it: methods over the database, each external call of which may fail
    and may find the chain moved on. `acts` is the run of the machine that the methods have made. */
module Indexer {
  import opened Wrappers
  import opened Chain
  import opened Projection
  import opened Storage
  import opened IndexerMachine
  import opened LedgerSafety
  import opened TableSafety
  import opened BlockedScans

  datatype ScanResult = ScanResult(scanned: nat, fromBlock: nat, safeHead: nat)

  datatype PassResult = PassResult(policyResult: ScanResult, claimResult: ScanResult)

  /** The ledger and tables once the handler for `log` has run to its end. */
  function Handled(ledger: seq<Log>, tables: Tables, log: Log): (seq<Log>, Tables) {
    if InLedger(ledger, log.key) then (ledger, tables) else (ledger + [log], Apply(tables, log))
  }

  /** The same for several logs in order. */
  function HandledAll(ledger: seq<Log>, tables: Tables, logs: seq<Log>): (seq<Log>, Tables) {
    if logs == [] then (ledger, tables) else
    var (ledger', tables') := HandledAll(ledger, tables, logs[..|logs| - 1]);
    Handled(ledger', tables', logs[|logs| - 1])
  }

  lemma HandledAllSnoc(ledger: seq<Log>, tables: Tables, logs: seq<Log>, log: Log)
    ensures HandledAll(ledger, tables, logs + [log]) ==
            var (ledger', tables') := HandledAll(ledger, tables, logs);
            Handled(ledger', tables', log)
  {
    hide Handled;
    assert (logs + [log])[..|logs|] == logs;
  }

  lemma {:induction false} HandledAllConcat(ledger: seq<Log>, tables: Tables, first: seq<Log>, second: seq<Log>)
    ensures HandledAll(ledger, tables, first + second) ==
            var (ledger', tables') := HandledAll(ledger, tables, first);
            HandledAll(ledger', tables', second)
  {
    hide Handled;
    if second == [] {
      assert first + second == first;
    } else {
      var n := |second| - 1;
      assert (first + second)[..|first| + n] == first + second[..n];
      HandledAllConcat(ledger, tables, first, second[..n]);
    }
  }

  class Service {
    const cfg: Config
    const chunkSize: nat
    const backendConfigured: bool

    // the world
    var chain: Blocks
    var peak: nat

    // the database
    var ledger: seq<Log>
    var tables: Tables
    var checkpoints: map<Contract, nat>

    // what has happened
    ghost var phase: Phase
    ghost var gaps: set<Key>
    ghost var reports: seq<Sent>
    ghost var chunks: seq<Chunk>
    ghost var init: State
    ghost var acts: seq<Action>
    ghost var heads: seq<nat> // the head numbers the node has answered

    ghost function Now(): State
      reads this
    {
      State(chain, peak, ledger, tables, checkpoints, phase, gaps, reports, chunks)
    }

    ghost predicate Valid()
      reads this
    {
      chunkSize >= 1 && Initial(cfg, init) && Run(cfg, init, acts) == Some(Now())
    }

    constructor (cfg: Config, chunkSize: nat, backendConfigured: bool, chain: Blocks)
      requires chunkSize >= 1 && WellFormed(chain) && chain != []
      ensures Valid() && this.cfg == cfg && this.chunkSize == chunkSize && this.chain == chain
      ensures ledger == [] && tables == EMPTY_TABLES && checkpoints == map[] && phase.Idle?
    {
      this.cfg, this.chunkSize, this.backendConfigured := cfg, chunkSize, backendConfigured;
      this.chain, this.peak := chain, |chain| - 1;
      ledger, tables, checkpoints := [], EMPTY_TABLES, map[];
      phase, gaps, reports, chunks := Idle, {}, [], [];
      init := State(chain, |chain| - 1, [], EMPTY_TABLES, map[], Idle, {}, [], []);
      acts, heads := [], [];
    }

    /** Adds to the recorded run the action that has just led from `before` to the present state. */
    ghost method Record(before: State, a: Action)
      requires chunkSize >= 1 && Initial(cfg, init) && Run(cfg, init, acts) == Some(before)
      requires Enabled(cfg, before, a) && Now() == After(cfg, before, a)
      modifies this`acts
      ensures Valid() && acts == old(acts) + [a]
    {
      RunStep(cfg, init, acts, before, a);
      acts := acts + [a];
    }

    lemma IsReachable()
      requires Valid()
      ensures Reachable(cfg, Now())
    {
    }

    /** Time passes before a call is answered: the chain may have moved. */
    method Wait()
      requires Valid()
      modifies this`chain, this`peak, this`acts
      ensures Valid() && old(acts) <= acts && WorldMoved(cfg, old(chain), old(peak), chain, peak)
    {
      ghost var before := Now();
      var next: Blocks := *;
      if MayBecome(cfg, chain, peak, next) {
        chain, peak := next, HighestHead(peak, next);
        Record(before, MoveChain(next));
      }
    }

    /** A call may be answered by an error, which ends the pass. */
    method Fails() returns (fails: bool)
      requires Valid()
      modifies this`phase, this`gaps, this`acts
      ensures Valid() && old(acts) <= acts
      ensures !fails ==> phase == old(phase) && gaps == old(gaps)
      ensures fails ==> phase.Idle? && gaps == old(gaps) + InFlight(old(phase))
    {
      fails := *;
      if fails {
        Abandon();
      }
    }

    /** The pass ends here: the exception reaches `mainLoop`. */
    ghost method Abandon()
      requires Valid()
      modifies this`phase, this`gaps, this`acts
      ensures Valid() && old(acts) <= acts
      ensures phase.Idle? && gaps == old(gaps) + InFlight(old(phase))
    {
      ghost var before := Now();
      if !phase.Idle? {
        gaps := gaps + InFlight(phase);
        phase := Idle;
        Record(before, Fail);
      }
    }

    // ----- checkpoint.js

    method GetLastProcessedBlock(c: Contract) returns (r: Result<Option<nat>>)
      requires Valid() && phase.SawHead?
      modifies this`chain, this`peak, this`phase, this`gaps, this`acts
      ensures Valid() && old(acts) <= acts && WorldMoved(cfg, old(chain), old(peak), chain, peak)
      ensures phase == if r.Success? then old(phase) else Idle
      ensures gaps == old(gaps)
      ensures r.Success? ==> r.value == if c in checkpoints then Some(checkpoints[c]) else None
    {
      Wait();
      var fails := Fails();
      if fails {
        assert gaps == old(gaps);
        return Failure("query failed");
      }
      r := Success(if c in checkpoints then Some(checkpoints[c]) else None);
    }

    /** The upsert takes effect. */
    method UpsertCheckpoint(c: Contract, block: nat)
      requires Valid() && phase.Fetched? && phase.todo == [] && phase.job.contract == c && phase.toBlock == block
      modifies this`checkpoints, this`phase, this`chunks, this`acts
      ensures Valid() && old(acts) <= acts
      ensures phase == Scanning(old(phase).job, block + 1) && checkpoints == old(checkpoints)[c := block]
    {
      hide Run, Initial;
      ghost var before := Now();
      checkpoints := checkpoints[c := block];
      chunks := chunks + [Chunk(c, phase.cursor, block, phase.job.chunkSize, phase.job.safeHead)];
      phase := Scanning(phase.job, block + 1);
      Record(before, SaveCheckpoint);
    }

    method SetLastProcessedBlock(c: Contract, block: nat) returns (r: Result<()>)
      requires Valid() && phase.Fetched? && phase.todo == [] && phase.job.contract == c && phase.toBlock == block
      modifies this`chain, this`peak, this`checkpoints, this`phase, this`gaps, this`chunks, this`acts
      ensures Valid() && old(acts) <= acts && WorldMoved(cfg, old(chain), old(peak), chain, peak)
      ensures gaps == old(gaps)
      ensures r.Success? ==> phase == Scanning(old(phase).job, block + 1) && checkpoints == old(checkpoints)[c := block]
      ensures r.Failure? ==>
                phase.Idle? && (checkpoints == old(checkpoints) || checkpoints == old(checkpoints)[c := block])
    {
      hide Valid, WorldMoved;
      Wait();
      var fails := Fails();
      if fails {
        return Failure("query failed");
      }
      UpsertCheckpoint(c, block);
      fails := Fails();
      r := if fails then Failure("connection lost") else Success(());
    }

    // ----- eventHandlers.js

    /** The insert takes effect, unless its key is there already. */
    method InsertRawEvent(log: Log) returns (isNew: bool)
      requires Valid() && phase.Fetched? && phase.todo != [] && phase.todo[0] == log && Recordable(log)
      modifies this`ledger, this`phase, this`acts
      ensures Valid() && old(acts) <= acts
      ensures isNew <==> !InLedger(old(ledger), log.key)
      ensures ledger == if isNew then old(ledger) + [log] else old(ledger)
      ensures var p := old(phase);
              phase == if isNew then Inserted(p.job, p.cursor, p.toBlock, log, p.todo[1..])
              else Fetched(p.job, p.cursor, p.toBlock, p.todo[1..])
    {
      hide Run, Initial;
      ghost var before := Now();
      isNew := !InLedger(ledger, log.key);
      if isNew {
        ledger := ledger + [log];
        phase := Inserted(phase.job, phase.cursor, phase.toBlock, log, phase.todo[1..]);
      } else {
        phase := Fetched(phase.job, phase.cursor, phase.toBlock, phase.todo[1..]);
      }
      Record(before, InsertRaw);
    }

    method PersistRawEventOnce(log: Log) returns (r: Result<bool>)
      requires Valid() && phase.Fetched? && phase.todo != [] && phase.todo[0] == log && log.decoded.Known?
      modifies this`chain, this`peak, this`ledger, this`phase, this`gaps, this`acts
      ensures Valid() && old(acts) <= acts && WorldMoved(cfg, old(chain), old(peak), chain, peak)
      ensures r.Success? ==>
                && gaps == old(gaps) && r.value == !InLedger(old(ledger), log.key)
                && ledger == (if r.value then old(ledger) + [log] else old(ledger))
                && var p := old(phase);
                   phase == if r.value then Inserted(p.job, p.cursor, p.toBlock, log, p.todo[1..])
                   else Fetched(p.job, p.cursor, p.toBlock, p.todo[1..])
      ensures r.Failure? ==>
                && phase.Idle?
                && ((ledger == old(ledger) && gaps == old(gaps)) ||
                    (!InLedger(old(ledger), log.key) && ledger == old(ledger) + [log] && gaps == old(gaps) + {log.key}))
      ensures !Recordable(log) ==> r.Failure? && ledger == old(ledger) && gaps == old(gaps)
    {
      hide Valid, WorldMoved, InLedger, Recordable;
      Wait();
      if !Recordable(log) {
        Abandon();
        return Failure("Do not know how to serialize a BigInt");
      }
      var fails := Fails();
      if fails {
        return Failure("query failed");
      }
      var isNew := InsertRawEvent(log);
      fails := Fails();
      r := if fails then Failure("connection lost") else Success(isNew);
    }

    /** A handler's table statement takes effect. */
    method CommitTables(log: Log, next: Tables)
      requires Valid() && phase.Inserted? && phase.log == log && next == Apply(tables, log) && Writable(log)
      modifies this`tables, this`phase, this`acts
      ensures Valid() && old(acts) <= acts && tables == next
      ensures var p := old(phase);
              phase == match ReportFor(next, log)
                       case Some(rep) => Written(p.job, p.cursor, p.toBlock, log, rep, p.todo)
                       case None => Fetched(p.job, p.cursor, p.toBlock, p.todo)
    {
      hide Run, Initial, Apply, ReportFor, Writable;
      ghost var before := Now();
      tables := next;
      phase := match ReportFor(next, log)
        case Some(rep) => Written(phase.job, phase.cursor, phase.toBlock, log, rep, phase.todo)
        case None => Fetched(phase.job, phase.cursor, phase.toBlock, phase.todo);
      Record(before, WriteTable);
    }

    /** One INSERT or UPDATE on a table: atomic, and its answer may be lost. */
    method RunStatement(log: Log, next: Tables) returns (r: Result<()>)
      requires Valid() && phase.Inserted? && phase.log == log && next == Apply(tables, log)
      modifies this`chain, this`peak, this`tables, this`phase, this`gaps, this`acts
      ensures Valid() && old(acts) <= acts && WorldMoved(cfg, old(chain), old(peak), chain, peak)
      ensures r.Success? ==>
                && tables == next && gaps == old(gaps)
                && var p := old(phase);
                   phase == match ReportFor(next, log)
                            case Some(rep) => Written(p.job, p.cursor, p.toBlock, log, rep, p.todo)
                            case None => Fetched(p.job, p.cursor, p.toBlock, p.todo)
      ensures r.Failure? ==>
                && phase.Idle?
                && ((tables == old(tables) && gaps == old(gaps) + {log.key}) || (tables == next && gaps == old(gaps)))
      ensures !Writable(log) ==> r.Failure? && tables == old(tables) && gaps == old(gaps) + {log.key}
    {
      hide Valid, WorldMoved, Apply, ReportFor, Writable;
      Wait();
      if !Writable(log) {
        Abandon();
        return Failure("out of range");
      }
      var fails := Fails();
      if fails {
        return Failure("query failed");
      }
      CommitTables(log, next);
      fails := Fails();
      r := if fails then Failure("connection lost") else Success(());
    }

    /** The webhook is sent, or is not, and the handler is done. */
    method Post(rep: Report, delivered: bool)
      requires Valid() && phase.Written? && phase.report == rep
      modifies this`phase, this`reports, this`acts
      ensures Valid() && old(acts) <= acts
      ensures reports == if delivered then old(reports) + [Sent(old(phase).log, rep)] else old(reports)
      ensures var p := old(phase); phase == Fetched(p.job, p.cursor, p.toBlock, p.todo)
    {
      hide Run, Initial;
      ghost var before := Now();
      if delivered {
        reports := reports + [Sent(phase.log, rep)];
      }
      phase := Fetched(phase.job, phase.cursor, phase.toBlock, phase.todo);
      Record(before, SendReport(delivered));
    }

    /** backendClient.js: does nothing without a backend, logs an error status, throws on a network error. */
    method ReportClaimEvent(rep: Report) returns (r: Result<()>)
      requires Valid() && phase.Written? && phase.report == rep
      modifies this`chain, this`peak, this`phase, this`reports, this`gaps, this`acts
      ensures Valid() && old(acts) <= acts && WorldMoved(cfg, old(chain), old(peak), chain, peak)
      ensures gaps == old(gaps)
      ensures reports == old(reports) || reports == old(reports) + [Sent(old(phase).log, rep)]
      ensures !backendConfigured ==> r.Success? && reports == old(reports)
      ensures var p := old(phase); phase == if r.Success? then Fetched(p.job, p.cursor, p.toBlock, p.todo) else Idle
    {
      hide Valid, WorldMoved;
      Wait();
      if !backendConfigured {
        Post(rep, false);
        return Success(());
      }
      var fails := Fails();
      if fails {
        return Failure("fetch failed");
      }
      var delivered: bool := *;
      Post(rep, delivered);
      fails := Fails();
      r := if fails then Failure("response lost") else Success(());
    }

    /** What a handler's call comes to. It ends well with both writes made, or with neither because the
        row was there before; or it fails with nothing done, with a gap, or with both writes made. A log that
        cannot be recorded always fails, with nothing done, and a new one that its table rejects fails too. */
    twostate predicate HandlerOutcome(log: Log, new r: Result<()>)
      requires old(phase).Fetched? && old(phase).todo != []
      reads this
    {
      var isNew, p := !InLedger(old(ledger), log.key), old(phase);
      var (ledger', tables') := Handled(old(ledger), old(tables), log);
      var report := if isNew then ReportFor(tables', log) else None;
      && (r.Success? ==>
            && phase == Fetched(p.job, p.cursor, p.toBlock, p.todo[1..]) && gaps == old(gaps)
            && ledger == ledger' && tables == tables')
      && (r.Failure? ==>
            && phase.Idle?
            && ((ledger == old(ledger) && tables == old(tables) && gaps == old(gaps)) ||
                (isNew && ledger == ledger' && tables == old(tables) && gaps == old(gaps) + {log.key}) ||
                (isNew && ledger == ledger' && tables == tables' && gaps == old(gaps))))
      && (reports == old(reports) ||
          (report.Some? && ledger == ledger' && tables == tables' &&
           reports == old(reports) + [Sent(log, report.value)]))
      && (reports != old(reports) ==> Carries(tables', log, reports[|reports| - 1].report))
      && (!Recordable(log) ==> r.Failure? && ledger == old(ledger) && gaps == old(gaps))
      && (isNew && !Writable(log) ==> r.Failure? && tables == old(tables))
    }

    /** What every handler needs: the log at hand is known and next in line. */
    ghost predicate Next(log: Log)
      reads this
    {
      Valid() && phase.Fetched? && phase.todo != [] && phase.todo[0] == log && log.decoded.Known?
    }

    method HandleClaimSubmitted(log: Log) returns (r: Result<()>)
      requires Next(log) && log.decoded.event.ClaimSubmitted?
      modifies this`chain, this`peak, this`ledger, this`tables, this`phase, this`reports, this`gaps, this`acts
      ensures Valid() && old(acts) <= acts && WorldMoved(cfg, old(chain), old(peak), chain, peak)
      ensures HandlerOutcome(log, r)
    {
      hide Valid, InLedger, BlockAt, Frozen, Recordable, Writable;
      var e := log.decoded.event;
      var isNew :- PersistRawEventOnce(log);
      if !isNew {
        return Success(());
      }
      var next := SubmitClaim(tables, log);
      var _ :- RunStatement(log, next);
      r := ReportClaimEvent(Report("ClaimSubmitted", e.claimId, e.merkleRoot, log.key.txHash, "submitted"));
    }

    method HandleClaimStatusChanged(log: Log) returns (r: Result<()>)
      requires Next(log) && log.decoded.event.ClaimStatusChanged?
      modifies this`chain, this`peak, this`ledger, this`tables, this`phase, this`reports, this`gaps, this`acts
      ensures Valid() && old(acts) <= acts && WorldMoved(cfg, old(chain), old(peak), chain, peak)
      ensures HandlerOutcome(log, r)
    {
      hide Valid, InLedger, BlockAt, Frozen, Recordable, Writable;
      var e := log.decoded.event;
      var isNew :- PersistRawEventOnce(log);
      if !isNew {
        return Success(());
      }
      var next := ChangeStatus(tables, log);
      var _ :- RunStatement(log, next);
      if e.claimId !in tables.claims {
        return Success(()); // unknown claim: warned about, not reported
      }
      r := ReportClaimEvent(Report("ClaimStatusChanged", e.claimId, tables.claims[e.claimId].merkleRoot,
                                   log.key.txHash, StatusName(e.status)));
    }

    method HandleClaimPayout(log: Log) returns (r: Result<()>)
      requires Next(log) && log.decoded.event.ClaimPayout?
      modifies this`chain, this`peak, this`ledger, this`tables, this`phase, this`reports, this`gaps, this`acts
      ensures Valid() && old(acts) <= acts && WorldMoved(cfg, old(chain), old(peak), chain, peak)
      ensures HandlerOutcome(log, r)
    {
      hide Valid, InLedger, BlockAt, Frozen, Recordable, Writable;
      var e := log.decoded.event;
      var isNew :- PersistRawEventOnce(log);
      if !isNew {
        return Success(());
      }
      var next := PayClaim(tables, log);
      var _ :- RunStatement(log, next);
      if e.claimId !in tables.claims {
        return Success(());
      }
      r := ReportClaimEvent(Report("ClaimPayout", e.claimId, tables.claims[e.claimId].merkleRoot,
                                   log.key.txHash, "paid"));
    }

    method HandlePolicyRegistered(log: Log) returns (r: Result<()>)
      requires Next(log) && log.decoded.event.PolicyRegistered?
      modifies this`chain, this`peak, this`ledger, this`tables, this`phase, this`reports, this`gaps, this`acts
      ensures Valid() && old(acts) <= acts && WorldMoved(cfg, old(chain), old(peak), chain, peak)
      ensures HandlerOutcome(log, r)
    {
      hide Valid, InLedger, BlockAt, Frozen, Recordable, Writable;
      var isNew :- PersistRawEventOnce(log);
      if !isNew {
        return Success(());
      }
      var next := RegisterPolicy(tables, log);
      r := RunStatement(log, next);
    }

    method HandlePolicyRevoked(log: Log) returns (r: Result<()>)
      requires Next(log) && log.decoded.event.PolicyRevoked?
      modifies this`chain, this`peak, this`ledger, this`tables, this`phase, this`reports, this`gaps, this`acts
      ensures Valid() && old(acts) <= acts && WorldMoved(cfg, old(chain), old(peak), chain, peak)
      ensures HandlerOutcome(log, r)
    {
      hide Valid, InLedger, BlockAt, Frozen, Recordable, Writable;
      var isNew :- PersistRawEventOnce(log);
      if !isNew {
        return Success(());
      }
      var next := RevokePolicy(tables, log);
      r := RunStatement(log, next);
    }

    // ----- listener.js

    /** The handler table. */
    method Dispatch(log: Log) returns (r: Result<()>)
      requires Next(log)
      modifies this`chain, this`peak, this`ledger, this`tables, this`phase, this`reports, this`gaps, this`acts
      ensures Valid() && old(acts) <= acts && WorldMoved(cfg, old(chain), old(peak), chain, peak)
      ensures HandlerOutcome(log, r)
      ensures log.decoded.event.ClaimStatusChanged? ==>
                r.Failure? && ledger == old(ledger) && tables == old(tables) && reports == old(reports)
    {
      StatusChangesAreUnrecordable(log);
      hide Valid, WorldMoved, InLedger, Apply, ReportFor, Recordable, Writable;
      match log.decoded.event
      case ClaimSubmitted(_, _, _, _, _, _) => r := HandleClaimSubmitted(log);
      case ClaimStatusChanged(_, _) => r := HandleClaimStatusChanged(log);
      case ClaimPayout(_, _, _, _) => r := HandleClaimPayout(log);
      case PolicyRegistered(_, _, _, _, _) => r := HandlePolicyRegistered(log);
      case PolicyRevoked(_) => r := HandlePolicyRevoked(log);
    }

    /** The node may lag behind, or have seen a fork that is gone since. */
    method GetBlockNumber() returns (r: Result<nat>)
      requires Valid() && phase.Idle?
      modifies this`chain, this`peak, this`phase, this`gaps, this`acts, this`heads
      ensures Valid() && old(acts) <= acts && WorldMoved(cfg, old(chain), old(peak), chain, peak)
      ensures phase.Idle? && gaps == old(gaps)
      ensures r.Success? ==> r.value <= peak
      ensures heads == if r.Success? then old(heads) + [r.value] else old(heads)
    {
      hide Run, Initial, WorldMoved;
      Wait();
      var fails := Fails();
      if fails {
        return Failure("rpc failed");
      }
      var head: nat := *;
      if head > peak {
        head := peak;
      }
      heads := heads + [head];
      r := Success(head);
    }

    /** A pass over one contract has its head and starts. */
    ghost method Start(c: Contract, head: nat)
      requires Valid() && phase.Idle? && head <= peak
      modifies this`phase, this`acts
      ensures Valid() && old(acts) <= acts
      ensures phase == SawHead(Job(c, chunkSize, cfg.SafeHead(head)))
    {
      hide Run, Initial;
      ghost var before := Now();
      phase := SawHead(Job(c, chunkSize, cfg.SafeHead(head)));
      Record(before, ReadHead(c, chunkSize, head));
    }

    /** The pass knows where to resume, or that there is nothing to read yet. */
    ghost method Resume(from: nat)
      requires Valid() && phase.SawHead? && from == ResumeFrom(cfg, checkpoints, phase.job.contract)
      modifies this`phase, this`acts
      ensures Valid() && old(acts) <= acts
      ensures phase == if from > old(phase).job.safeHead then Idle else Scanning(old(phase).job, from)
    {
      hide Run, Initial;
      ghost var before := Now();
      phase := if from > phase.job.safeHead then Idle else Scanning(phase.job, from);
      Record(before, ReadCheckpoint);
    }

    ghost method Finish()
      requires Valid() && phase.Scanning? && phase.cursor > phase.job.safeHead
      modifies this`phase, this`acts
      ensures Valid() && old(acts) <= acts && phase == Idle
    {
      hide Run, Initial;
      ghost var before := Now();
      phase := Idle;
      Record(before, FinishScan);
    }

    ghost method Ignore()
      requires Valid() && phase.Fetched? && phase.todo != [] && phase.todo[0].decoded.Throws?
      modifies this`phase, this`acts
      ensures Valid() && old(acts) <= acts
      ensures var p := old(phase); phase == Fetched(p.job, p.cursor, p.toBlock, p.todo[1..])
    {
      hide Run, Initial;
      ghost var before := Now();
      phase := Fetched(phase.job, phase.cursor, phase.toBlock, phase.todo[1..]);
      Record(before, SkipLog);
    }

    /** All logs of the contract in a block range of the chain as it is when the node answers. */
    method GetLogs(c: Contract, from: nat, toBlock: nat) returns (r: Result<seq<Log>>)
      requires Valid() && phase.Scanning? && phase.job.contract == c && phase.cursor == from <= phase.job.safeHead
      requires phase.job.chunkSize >= 1 && toBlock == ChunkEnd(from, phase.job.chunkSize, phase.job.safeHead)
      modifies this`chain, this`peak, this`phase, this`gaps, this`acts
      ensures Valid() && old(acts) <= acts && WorldMoved(cfg, old(chain), old(peak), chain, peak)
      ensures gaps == old(gaps)
      ensures r.Success? ==>
                && r.value == OfContract(LogsIn(chain, from, toBlock + 1), c)
                && phase == Fetched(old(phase).job, from, toBlock, r.value)
      ensures r.Failure? ==> phase.Idle?
    {
      hide Run, Initial, WorldMoved, LogsIn, OfContract;
      Wait();
      var fails := Fails();
      if fails {
        return Failure("rpc failed");
      }
      ghost var before := Now();
      var logs := OfContract(LogsIn(chain, from, toBlock + 1), c);
      phase := Fetched(phase.job, from, toBlock, logs);
      Record(before, FetchLogs);
      r := Success(logs);
    }

    /** The inner loop of a scan: every log of the chunk in order. */
    method HandleLogs(logs: seq<Log>) returns (r: Result<nat>)
      requires Valid() && phase.Fetched? && phase.todo == logs
      modifies this`chain, this`peak, this`ledger, this`tables, this`phase, this`reports, this`gaps, this`acts
      ensures Valid() && old(acts) <= acts && WorldMoved(cfg, old(chain), old(peak), chain, peak)
      ensures r.Success? ==>
                && r.value == |Recognised(logs)|
                && (ledger, tables) == HandledAll(old(ledger), old(tables), Recognised(logs))
                && phase == Fetched(old(phase).job, old(phase).cursor, old(phase).toBlock, [])
      ensures r.Failure? ==> phase.Idle?
      ensures (exists l :: l in logs && Blocking(l)) ==> r.Failure?
    {
      hide Valid, Recognised, BlockAt, Frozen, Run, Handled, HandledAll, Recordable, Writable;
      var scanned := 0;
      NothingHandled(ledger, tables);
      assert Recognised(logs[..0]) == [] by { RecognisedEmpty(logs[..0]); }
      var i := 0;
      while i < |logs|
        invariant 0 <= i <= |logs|
        invariant Valid() && old(acts) <= acts && WorldMoved(cfg, old(chain), old(peak), chain, peak)
        invariant phase == Fetched(old(phase).job, old(phase).cursor, old(phase).toBlock, logs[i..])
        invariant scanned == |Recognised(logs[..i])|
        invariant forall l :: l in logs[..i] ==> !Blocking(l)
        invariant (ledger, tables) == HandledAll(old(ledger), old(tables), Recognised(logs[..i]))
      {
        var log := logs[i];
        assert logs[..i + 1] == logs[..i] + [log] && logs[i..][1..] == logs[i + 1..];
        RecognisedSnoc(logs[..i], log);
        if log.decoded.Throws? {
          Ignore();
        } else if log.decoded.NoMatch? {
          Abandon(); // reading the name of a null result throws
          return Failure("cannot read properties of null");
        } else {
          HandledAllSnoc(old(ledger), old(tables), Recognised(logs[..i]), log);
          var _ :- Dispatch(log);
          scanned := scanned + 1;
        }
        i := i + 1;
      }
      assert logs[..i] == logs && logs[i..] == [];
      r := Success(scanned);
    }

    /** The outer loop's body: fetch, handle and check off the chunk at `cursor`. */
    method ScanChunk(c: Contract, safeHead: nat, cursor: nat, toBlock: nat) returns (r: Result<nat>)
      requires Valid() && phase == Scanning(Job(c, chunkSize, safeHead), cursor) && cursor <= safeHead
      requires chunkSize >= 1 && toBlock == ChunkEnd(cursor, chunkSize, safeHead)
      modifies this`chain, this`peak, this`ledger, this`tables, this`checkpoints
      modifies this`phase, this`reports, this`gaps, this`chunks, this`acts
      ensures Valid() && old(acts) <= acts && WorldMoved(cfg, old(chain), old(peak), chain, peak)
      ensures r.Success? ==>
                && phase == Scanning(Job(c, chunkSize, safeHead), toBlock + 1)
                && checkpoints == old(checkpoints)[c := toBlock]
                && (safeHead < Frozen(cfg, old(peak)) ==>
                      var logs := Expected(chain, c, cursor, toBlock + 1);
                      r.value == |logs| && (ledger, tables) == HandledAll(old(ledger), old(tables), logs))
      ensures r.Failure? ==>
                phase.Idle? && (checkpoints == old(checkpoints) || checkpoints == old(checkpoints)[c := toBlock])
    {
      hide Valid, Expected, Recognised, OfContract, LogsIn, HandledAll;
      var logs :- GetLogs(c, cursor, toBlock);
      ghost var chain1, peak1 := chain, peak;
      var scanned :- HandleLogs(logs);
      var _ :- SetLastProcessedBlock(c, toBlock);
      if safeHead < Frozen(cfg, old(peak)) {
        FetchedIsFinal(cfg, c, chain1, peak1, chain, peak, cursor, toBlock + 1);
      }
      r := Success(scanned);
    }

    /** A scan of `c` over these blocks is for the one head number the node has answered since, and starts where the
        checkpoint says. */
    predicate Follows(fromBlock: nat, safeHead: nat, c: Contract, checkpoints: map<Contract, nat>,
                      before: seq<nat>, after: seq<nat>)
    {
      && |after| == |before| + 1 && before <= after
      && safeHead == (if after[|before|] < cfg.margin then 0 else after[|before|] - cfg.margin)
      && fromBlock == (if c in checkpoints then checkpoints[c] + 1
                       else if c == InsurancePolicy then cfg.policyDeploy else cfg.claimDeploy)
    }

    /** Where the scan of `c` is to go on, or that there is nothing to read yet. */
    method BeginScan(c: Contract) returns (r: Result<ScanResult>)
      requires Valid() && phase.Idle?
      modifies this`chain, this`peak, this`phase, this`gaps, this`acts, this`heads
      ensures Valid() && old(acts) <= acts && WorldMoved(cfg, old(chain), old(peak), chain, peak)
      ensures r.Success? ==>
                && r.value.scanned == 0 && r.value.fromBlock == ResumeFrom(cfg, checkpoints, c)
                && r.value.safeHead <= cfg.SafeHead(peak)
                && Follows(r.value.fromBlock, r.value.safeHead, c, old(checkpoints), old(heads), heads)
                && phase == (if r.value.fromBlock > r.value.safeHead then Idle
                             else Scanning(Job(c, chunkSize, r.value.safeHead), r.value.fromBlock))
      ensures r.Failure? ==> phase.Idle? && old(heads) <= heads
    {
      hide Valid;
      var currentHead :- GetBlockNumber();
      var safeHead := cfg.SafeHead(currentHead);
      Start(c, currentHead);
      var checkpoint :- GetLastProcessedBlock(c);
      var fromBlock := match checkpoint case None => cfg.Deploy(c) case Some(b) => b + 1;
      Resume(fromBlock);
      r := Success(ScanResult(0, fromBlock, safeHead));
    }

    /** The outer loop: chunk after chunk up to the safe head. */
    method ScanChunks(c: Contract, safeHead: nat, fromBlock: nat) returns (r: Result<nat>)
      requires Valid() && phase == Scanning(Job(c, chunkSize, safeHead), fromBlock) && fromBlock <= safeHead
      modifies this`chain, this`peak, this`ledger, this`tables, this`checkpoints
      modifies this`phase, this`reports, this`gaps, this`chunks, this`acts
      ensures Valid() && old(acts) <= acts && WorldMoved(cfg, old(chain), old(peak), chain, peak)
      ensures r.Success? ==>
                && phase == Scanning(Job(c, chunkSize, safeHead), safeHead + 1)
                && checkpoints == old(checkpoints)[c := safeHead]
                && (safeHead < Frozen(cfg, old(peak)) ==>
                      var logs := Expected(chain, c, fromBlock, safeHead + 1);
                      r.value == |logs| && (ledger, tables) == HandledAll(old(ledger), old(tables), logs))
      ensures r.Failure? ==>
                && phase.Idle?
                && (checkpoints == old(checkpoints) ||
                    (c in checkpoints && checkpoints == old(checkpoints)[c := checkpoints[c]] &&
                     fromBlock <= checkpoints[c]))
    {
      hide Run, Initial, Expected, BlockAt, HandledAll;
      assert chunkSize >= 1;
      hide Valid;
      NothingHandled(ledger, tables);
      var cursor := fromBlock;
      var totalScanned := 0;
      NothingExpected(chain, c, fromBlock, cursor);
      while cursor <= safeHead
        invariant Valid() && old(acts) <= acts && WorldMoved(cfg, old(chain), old(peak), chain, peak)
        invariant phase == Scanning(Job(c, chunkSize, safeHead), cursor)
        invariant fromBlock <= cursor <= safeHead + 1
        invariant checkpoints == if cursor == fromBlock then old(checkpoints) else old(checkpoints)[c := cursor - 1]
        invariant safeHead < Frozen(cfg, old(peak)) ==>
                    var logs := Expected(chain, c, fromBlock, cursor);
                    totalScanned == |logs| && (ledger, tables) == HandledAll(old(ledger), old(tables), logs)
        decreases safeHead + 1 - cursor
      {
        var toBlock := ChunkEnd(cursor, chunkSize, safeHead);
        ghost var chain0, peak0 := chain, peak;
        var scanned :- ScanChunk(c, safeHead, cursor, toBlock);
        totalScanned := totalScanned + scanned;
        if safeHead < Frozen(cfg, old(peak)) {
          ChunksJoin(cfg, c, chain0, peak0, chain, peak, fromBlock, cursor, toBlock + 1);
          HandledAllConcat(old(ledger), old(tables), Expected(chain, c, fromBlock, cursor),
                           Expected(chain, c, cursor, toBlock + 1));
        }
        cursor := toBlock + 1;
      }
      r := Success(totalScanned);
    }

    method ScanContract(c: Contract) returns (r: Result<ScanResult>)
      requires Valid() && phase.Idle?
      modifies this`chain, this`peak, this`ledger, this`tables, this`checkpoints
      modifies this`phase, this`reports, this`gaps, this`chunks, this`acts, this`heads
      ensures Valid() && old(acts) <= acts && WorldMoved(cfg, old(chain), old(peak), chain, peak)
      ensures phase.Idle?
      ensures r.Success? ==>
                var q := r.value;
                && q.fromBlock == ResumeFrom(cfg, old(checkpoints), c) && q.safeHead <= cfg.SafeHead(peak)
                && Follows(q.fromBlock, q.safeHead, c, old(checkpoints), old(heads), heads)
                && (q.fromBlock > q.safeHead ==> q.scanned == 0 && ledger == old(ledger) && tables == old(tables))
                && checkpoints == (if q.fromBlock <= q.safeHead then old(checkpoints)[c := q.safeHead]
                                   else old(checkpoints))
                && (ReadsOnlyFinalBlocks(cfg) ==>
                      var logs := Expected(chain, c, q.fromBlock, q.safeHead + 1);
                      q.scanned == |logs| && (ledger, tables) == HandledAll(old(ledger), old(tables), logs))
      ensures r.Failure? ==>
                checkpoints == old(checkpoints) ||
                (c in checkpoints && checkpoints == old(checkpoints)[c := checkpoints[c]] &&
                 ResumeFrom(cfg, old(checkpoints), c) <= checkpoints[c])
    {
      hide Valid, Expected, BlockAt, ReadsOnlyFinalBlocks, HandledAll, Reachable, Frozen, Follows;
      NothingHandled(ledger, tables);
      var begin :- BeginScan(c);
      if begin.fromBlock > begin.safeHead {
        NothingExpected(chain, c, begin.fromBlock, begin.safeHead + 1);
        return Success(begin);
      }
      if ReadsOnlyFinalBlocks(cfg) {
        IsReachable();
        ScanIsFinal(cfg, Now());
      }
      var totalScanned :- ScanChunks(c, begin.safeHead, begin.fromBlock);
      Finish();
      r := Success(ScanResult(totalScanned, begin.fromBlock, begin.safeHead));
    }

    /** Policies first, then claims; the first failure ends the pass. */
    method RunOnePass() returns (r: Result<PassResult>)
      requires Valid() && phase.Idle?
      modifies this`chain, this`peak, this`ledger, this`tables, this`checkpoints
      modifies this`phase, this`reports, this`gaps, this`chunks, this`acts, this`heads
      ensures Valid() && old(acts) <= acts && phase.Idle?
      ensures r.Success? ==>
                && CaughtUp(r.value.policyResult, InsurancePolicy, old(checkpoints))
                && CaughtUp(r.value.claimResult, ClaimRegistry, old(checkpoints))
                && |heads| == |old(heads)| + 2
                && var p, q, first := r.value.policyResult, r.value.claimResult, heads[..|old(heads)| + 1];
                   && Follows(p.fromBlock, p.safeHead, InsurancePolicy, old(checkpoints), old(heads), first)
                   && Follows(q.fromBlock, q.safeHead, ClaimRegistry, old(checkpoints), first, heads)
    {
      hide Valid, WorldMoved;
      var policyResult :- ScanContract(InsurancePolicy);
      var claimResult :- ScanContract(ClaimRegistry);
      r := Success(PassResult(policyResult, claimResult));
    }

    /** A finished scan of `c` went on from the earlier checkpoints and left the new one at its safe head. */
    ghost predicate CaughtUp(q: ScanResult, c: Contract, before: map<Contract, nat>)
      reads this
    {
      && q.fromBlock == ResumeFrom(cfg, before, c)
      && ResumeFrom(cfg, checkpoints, c) == if q.fromBlock <= q.safeHead then q.safeHead + 1 else q.fromBlock
    }

    /** Any number of passes, each abandoned where a call fails and retried by the next. */
    method MainLoop(passes: nat)
      requires Valid() && phase.Idle?
      modifies this`chain, this`peak, this`ledger, this`tables, this`checkpoints
      modifies this`phase, this`reports, this`gaps, this`chunks, this`acts, this`heads
      ensures Valid() && old(acts) <= acts && phase.Idle?
      ensures ReadsOnlyFinalBlocks(cfg) ==>
                && Faithful(cfg, Now(), InsurancePolicy) && Faithful(cfg, Now(), ClaimRegistry)
                && forall c :: NoneBlocks(chain, c, cfg.Deploy(c), ResumeFrom(cfg, checkpoints, c))
      ensures tables == Replay(Without(ledger, gaps)) && NoDoubleReport(reports)
    {
      hide Valid, ReadsOnlyFinalBlocks, Faithful, Replay, Reachable, NoDoubleReport, NoneBlocks;
      for i := 0 to passes
        invariant Valid() && old(acts) <= acts && phase.Idle?
      {
        var _ := RunOnePass();
      }
      IsReachable();
      if ReadsOnlyFinalBlocks(cfg) {
        LedgerIsFaithful(cfg, Now(), InsurancePolicy);
        LedgerIsFaithful(cfg, Now(), ClaimRegistry);
        forall c: Contract
          ensures NoneBlocks(chain, c, cfg.Deploy(c), ResumeFrom(cfg, checkpoints, c))
        {
          BlockingIsNeverPassed(cfg, Now(), c);
        }
      }
      TablesAreReplay(cfg, Now());
      ReportsAreTruthful(cfg, Now());
      assert gaps + {} == gaps;
    }
  }

  lemma RecognisedEmpty(logs: seq<Log>)
    requires logs == []
    ensures Recognised(logs) == []
  {
  }

  /** A scan under way stays below the final blocks' end. */
  lemma ScanIsFinal(cfg: Config, s: State)
    requires ReadsOnlyFinalBlocks(cfg) && Reachable(cfg, s) && s.phase.Scanning?
    ensures s.phase.job.safeHead < Frozen(cfg, s.peak)
  {
    LedgerInvariantHolds(cfg, s);
  }

  lemma NothingHandled(ledger: seq<Log>, tables: Tables)
    ensures HandledAll(ledger, tables, []) == (ledger, tables)
  {
  }

  /** Logs fetched from final blocks are what the chain still holds at any later time. */
  lemma FetchedIsFinal(cfg: Config, c: Contract, chain: Blocks, peak: nat, chain': Blocks, peak': nat,
                       from: nat, end: nat)
    requires WorldMoved(cfg, chain, peak, chain', peak') && end <= Frozen(cfg, peak)
    ensures Recognised(OfContract(LogsIn(chain, from, end), c)) == Expected(chain', c, from, end)
  {
    LogsInAgree(chain', chain, from, end);
  }

  lemma ChunksJoin(cfg: Config, c: Contract, chain: Blocks, peak: nat, chain': Blocks, peak': nat,
                   from: nat, cursor: nat, end: nat)
    requires WorldMoved(cfg, chain, peak, chain', peak') && from <= cursor <= end <= Frozen(cfg, peak)
    ensures Expected(chain', c, from, cursor) == Expected(chain, c, from, cursor)
    ensures Expected(chain', c, from, end) == Expected(chain', c, from, cursor) + Expected(chain', c, cursor, end)
  {
    LogsInAgree(chain', chain, from, cursor);
    ExpectedSplit(chain', c, from, cursor, end);
  }
}
