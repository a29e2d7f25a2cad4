/** The tables and webhooks against the ledger. Nothing here depends on the chain or the configuration:
    it holds however the chain is replaced and whatever fails. */
module TableSafety {
  import opened Wrappers
  import opened Chain
  import opened Projection
  import opened IndexerMachine

  /** `logs` without those whose key is in `keys`. */
  function Without(logs: seq<Log>, keys: set<Key>): seq<Log> {
    if logs == [] then [] else
    var kept, last := Without(logs[..|logs| - 1], keys), logs[|logs| - 1];
    if last.key in keys then kept else kept + [last]
  }

  /** The key of the log whose raw row is in but whose table statement has yet to run. */
  function InFlight(phase: Phase): set<Key> {
    if phase.Inserted? then {phase.log.key} else {}
  }

  /** The tables are the replay of the ledger minus exactly the logs interrupted between their two writes. */
  predicate TablesFollowLedger(s: State) {
    s.tables == Replay(Without(s.ledger, s.gaps + InFlight(s.phase)))
  }

  /** Only ledger rows are gaps. */
  predicate GapsAreRows(s: State) {
    forall k :: k in s.gaps ==> InLedger(s.ledger, k)
  }

  /** `sent` reports a ledger row, and says what the replay up to that row says. */
  ghost predicate Truthful(ledger: seq<Log>, gaps: set<Key>, sent: Sent) {
    exists k: nat :: k < |ledger| && ReportsRow(ledger, gaps, sent, k)
  }

  predicate ReportsRow(ledger: seq<Log>, gaps: set<Key>, sent: Sent, k: nat)
    requires k < |ledger|
  {
    && ledger[k] == sent.log && sent.log.key !in gaps
    && ReportFor(Replay(Without(ledger[..k + 1], gaps)), sent.log) == Some(sent.report)
  }

  predicate Unreported(reports: seq<Sent>, key: Key) {
    forall i :: 0 <= i < |reports| ==> reports[i].log.key != key
  }

  predicate NoDoubleReport(reports: seq<Sent>) {
    forall i, j :: 0 <= i < j < |reports| ==> reports[i].log.key != reports[j].log.key
  }

  ghost predicate ReportsOk(ledger: seq<Log>, gaps: set<Key>, reports: seq<Sent>) {
    NoDoubleReport(reports) && forall i :: 0 <= i < |reports| ==> Truthful(ledger, gaps, reports[i])
  }

  /** The log being handled is the newest row, is not a gap and has not been reported. */
  predicate NewestRow(s: State, log: Log) {
    && s.ledger != [] && s.ledger[|s.ledger| - 1] == log
    && log.key !in s.gaps && Unreported(s.reports, log.key)
  }

  ghost predicate TableInvariant(s: State) {
    && DistinctKeys(s.ledger) && GapsAreRows(s) && TablesFollowLedger(s)
    && ReportsOk(s.ledger, s.gaps, s.reports)
    && (s.phase.Inserted? ==> NewestRow(s, s.phase.log))
    && (s.phase.Written? ==> NewestRow(s, s.phase.log) && ReportFor(s.tables, s.phase.log) == Some(s.phase.report))
  }

  // ----- filtering

  lemma WithoutSnoc(logs: seq<Log>, l: Log, keys: set<Key>)
    ensures Without(logs + [l], keys) == if l.key in keys then Without(logs, keys) else Without(logs, keys) + [l]
  {
    assert (logs + [l])[..|logs|] == logs;
  }

  lemma {:induction false} WithoutOther(logs: seq<Log>, keys: set<Key>, key: Key)
    requires !InLedger(logs, key)
    ensures Without(logs, keys + {key}) == Without(logs, keys)
  {
    if logs != [] {
      var n := |logs| - 1;
      assert forall i :: 0 <= i < n ==> logs[..n][i] == logs[i];
      WithoutOther(logs[..n], keys, key);
    }
  }

  lemma {:induction false} WithoutNone(logs: seq<Log>)
    ensures Without(logs, {}) == logs
  {
    if logs != [] {
      WithoutNone(logs[..|logs| - 1]);
    }
  }

  // ----- reports

  /** A report stays truthful when rows are added after its own and later rows become gaps. */
  lemma TruthfulLater(ledger: seq<Log>, gaps: set<Key>, sent: Sent, l: Log)
    requires Truthful(ledger, gaps, sent)
    ensures Truthful(ledger + [l], gaps, sent)
  {
    var k: nat :| k < |ledger| && ReportsRow(ledger, gaps, sent, k);
    assert (ledger + [l])[..k + 1] == ledger[..k + 1];
    assert ReportsRow(ledger + [l], gaps, sent, k);
  }

  lemma TruthfulDespiteGap(ledger: seq<Log>, gaps: set<Key>, sent: Sent)
    requires DistinctKeys(ledger) && ledger != [] && Truthful(ledger, gaps, sent)
    requires sent.log.key != ledger[|ledger| - 1].key
    ensures Truthful(ledger, gaps + {ledger[|ledger| - 1].key}, sent)
  {
    var last := ledger[|ledger| - 1];
    var k: nat :| k < |ledger| && ReportsRow(ledger, gaps, sent, k);
    assert !InLedger(ledger[..k + 1], last.key);
    WithoutOther(ledger[..k + 1], gaps, last.key);
    assert ReportsRow(ledger, gaps + {last.key}, sent, k);
  }

  lemma ReportedIsRow(s: State, key: Key)
    requires ReportsOk(s.ledger, s.gaps, s.reports) && !InLedger(s.ledger, key)
    ensures Unreported(s.reports, key)
  {
    forall i | 0 <= i < |s.reports|
      ensures s.reports[i].log.key != key
    {
      assert Truthful(s.ledger, s.gaps, s.reports[i]);
      var k: nat :| k < |s.ledger| && ReportsRow(s.ledger, s.gaps, s.reports[i], k);
    }
  }

  // ----- each step keeps the invariant

  lemma InsertKeeps(s: State, log: Log, t: State)
    requires TableInvariant(s) && s.phase.Fetched? && !InLedger(s.ledger, log.key)
    requires t.ledger == s.ledger + [log] && t.tables == s.tables && t.gaps == s.gaps && t.reports == s.reports
    requires t.phase.Inserted? && t.phase.log == log
    ensures TableInvariant(t)
  {
    hide Replay, ReportFor, Without;
    assert forall l :: l in s.ledger ==> l.key != log.key;
    WithoutSnoc(s.ledger, log, s.gaps + {log.key});
    WithoutOther(s.ledger, s.gaps, log.key);
    assert s.gaps + InFlight(s.phase) == s.gaps;
    ReportedIsRow(s, log.key);
    forall i | 0 <= i < |t.reports|
      ensures Truthful(t.ledger, t.gaps, t.reports[i])
    {
      TruthfulLater(s.ledger, s.gaps, s.reports[i], log);
    }
    forall k | k in t.gaps
      ensures InLedger(t.ledger, k)
    {
      var i :| 0 <= i < |s.ledger| && s.ledger[i].key == k;
      assert t.ledger[i].key == k;
    }
  }

  lemma WriteKeepsTables(s: State)
    requires TableInvariant(s) && s.phase.Inserted?
    ensures Apply(s.tables, s.phase.log) == Replay(Without(s.ledger, s.gaps))
  {
    hide Apply;
    var log, n := s.phase.log, |s.ledger| - 1;
    var rest := s.ledger[..n];
    assert s.ledger == rest + [log];
    assert !InLedger(rest, log.key);
    WithoutSnoc(rest, log, s.gaps + {log.key});
    WithoutSnoc(rest, log, s.gaps);
    WithoutOther(rest, s.gaps, log.key);
    ReplaySnoc(Without(rest, s.gaps), log);
  }

  lemma WriteKeeps(cfg: Config, s: State)
    requires TableInvariant(s) && Enabled(cfg, s, WriteTable)
    ensures TableInvariant(After(cfg, s, WriteTable))
  {
    WriteKeepsTables(s);
    hide Apply, ReportFor, Replay, Without, ReportsOk;
    assert s.gaps + {} == s.gaps;
  }

  lemma SendKeeps(cfg: Config, s: State, delivered: bool)
    requires TableInvariant(s) && Enabled(cfg, s, SendReport(delivered))
    ensures TableInvariant(After(cfg, s, SendReport(delivered)))
  {
    hide ReportFor, Replay, Without, ReportsOk, Truthful;
    assert s.gaps + {} == s.gaps;
    if delivered {
      NewestIsTruthful(s.ledger, s.gaps, Sent(s.phase.log, s.phase.report));
      ReportsSnoc(s.ledger, s.gaps, s.reports, Sent(s.phase.log, s.phase.report));
    }
  }

  lemma NewestIsTruthful(ledger: seq<Log>, gaps: set<Key>, sent: Sent)
    requires ledger != [] && ledger[|ledger| - 1] == sent.log && sent.log.key !in gaps
    requires ReportFor(Replay(Without(ledger, gaps)), sent.log) == Some(sent.report)
    ensures Truthful(ledger, gaps, sent)
  {
    hide ReportFor, Replay, Without;
    assert ledger[..|ledger|] == ledger;
    assert ReportsRow(ledger, gaps, sent, |ledger| - 1);
  }

  lemma ReportsSnoc(ledger: seq<Log>, gaps: set<Key>, reports: seq<Sent>, sent: Sent)
    requires ReportsOk(ledger, gaps, reports) && Truthful(ledger, gaps, sent) && Unreported(reports, sent.log.key)
    ensures ReportsOk(ledger, gaps, reports + [sent])
  {
    hide Truthful;
  }

  lemma FailKeeps(cfg: Config, s: State)
    requires TableInvariant(s) && Enabled(cfg, s, Fail)
    ensures TableInvariant(After(cfg, s, Fail))
  {
    hide ReportFor, Replay, Without;
    var t := After(cfg, s, Fail);
    assert t.gaps + {} == t.gaps == s.gaps + InFlight(s.phase);
    if s.phase.Inserted? {
      assert InLedger(s.ledger, s.phase.log.key);
      forall i | 0 <= i < |t.reports|
        ensures Truthful(t.ledger, t.gaps, t.reports[i])
      {
        TruthfulDespiteGap(s.ledger, s.gaps, s.reports[i]);
      }
    }
  }

  lemma TableStepKeeps(cfg: Config, s: State, a: Action)
    requires TableInvariant(s) && Enabled(cfg, s, a)
    ensures TableInvariant(After(cfg, s, a))
  {
    hide ReportFor, Replay, Without, ReportsOk, Apply, WellFormed, BlockAt, LogsIn, OfContract, InLedger;
    match a
    case MoveChain(_) =>
    case ReadHead(_, _, _) =>
    case ReadCheckpoint =>
    case FetchLogs =>
    case FinishScan =>
    case SkipLog =>
    case InsertRaw =>
      if !InLedger(s.ledger, s.phase.todo[0].key) {
        InsertKeeps(s, s.phase.todo[0], After(cfg, s, a));
      }
    case WriteTable => WriteKeeps(cfg, s);
    case SendReport(delivered) => SendKeeps(cfg, s, delivered);
    case SaveCheckpoint =>
    case Fail => FailKeeps(cfg, s);
  }

  lemma InitiallyHolds(cfg: Config, init: State)
    requires Initial(cfg, init)
    ensures TableInvariant(init)
  {
    hide WellFormed;
  }

  lemma {:induction false} TableRunKeeps(cfg: Config, s: State, acts: seq<Action>)
    requires TableInvariant(s) && Run(cfg, s, acts).Some?
    ensures TableInvariant(Run(cfg, s, acts).value)
  {
    if acts != [] {
      hide TableInvariant, Enabled, After;
      var n := |acts| - 1;
      TableRunKeeps(cfg, s, acts[..n]);
      TableStepKeeps(cfg, Run(cfg, s, acts[..n]).value, acts[n]);
    }
  }

  lemma TableInvariantHolds(cfg: Config, s: State)
    requires Reachable(cfg, s)
    ensures TableInvariant(s)
  {
    hide TableInvariant, Initial;
    var init, acts :| Initial(cfg, init) && Run(cfg, init, acts) == Some(s);
    InitiallyHolds(cfg, init);
    TableRunKeeps(cfg, init, acts);
  }

  // ----- the results

  /** In every reachable state the tables are the replay of the ledger minus exactly the interrupted
      logs; with none interrupted or in flight, they are the replay of the whole ledger. */
  lemma TablesAreReplay(cfg: Config, s: State)
    requires Reachable(cfg, s)
    ensures s.tables == Replay(Without(s.ledger, s.gaps + InFlight(s.phase)))
    ensures s.gaps == {} && !s.phase.Inserted? ==> s.tables == Replay(s.ledger)
    ensures DistinctKeys(s.ledger)
  {
    TableInvariantHolds(cfg, s);
    WithoutNone(s.ledger);
    assert s.gaps == {} && !s.phase.Inserted? ==> s.gaps + InFlight(s.phase) == {};
  }

  /** `sent` is of row `k`, which was not lost, and carries what the replay up to that row says. */
  predicate SaysRow(ledger: seq<Log>, gaps: set<Key>, sent: Sent, k: nat) {
    && k < |ledger| && ledger[k] == sent.log && sent.log.key !in gaps
    && Carries(Replay(Without(ledger[..k + 1], gaps)), sent.log, sent.report)
  }

  ghost predicate SaysSomeRow(ledger: seq<Log>, gaps: set<Key>, sent: Sent) {
    exists k: nat :: SaysRow(ledger, gaps, sent, k)
  }

  lemma TruthfulSays(ledger: seq<Log>, gaps: set<Key>, sent: Sent)
    requires Truthful(ledger, gaps, sent)
    ensures SaysSomeRow(ledger, gaps, sent)
  {
    var k: nat :| k < |ledger| && ReportsRow(ledger, gaps, sent, k);
    RowSays(ledger, gaps, sent, k);
  }

  lemma RowSays(ledger: seq<Log>, gaps: set<Key>, sent: Sent, k: nat)
    requires k < |ledger| && ReportsRow(ledger, gaps, sent, k)
    ensures SaysRow(ledger, gaps, sent, k)
  {
    hide Apply, ReportFor, Replay, Without, Carries;
    var before := Without(ledger[..k], gaps);
    assert ledger[..k + 1] == ledger[..k] + [sent.log];
    WithoutSnoc(ledger[..k], sent.log, gaps);
    ReplaySnoc(before, sent.log);
    ReportsExactly(Replay(before), sent.log);
  }

  /** No event is reported twice, and every report is of a ledger row, made after its table write: its name,
      claim and transaction are the log's, its Merkle root and status those that the replay up to that row
      gives the claim. */
  lemma ReportsAreTruthful(cfg: Config, s: State)
    requires Reachable(cfg, s)
    ensures NoDoubleReport(s.reports)
    ensures forall i :: 0 <= i < |s.reports| ==> Truthful(s.ledger, s.gaps, s.reports[i])
    ensures forall i :: 0 <= i < |s.reports| ==> SaysSomeRow(s.ledger, s.gaps, s.reports[i])
  {
    hide TableInvariant, SaysSomeRow, Truthful, NoDoubleReport, Reachable;
    TableInvariantHolds(cfg, s);
    ReportsOfInvariant(s);
    forall i | 0 <= i < |s.reports|
      ensures SaysSomeRow(s.ledger, s.gaps, s.reports[i])
    {
      TruthfulSays(s.ledger, s.gaps, s.reports[i]);
    }
  }

  lemma ReportsOfInvariant(s: State)
    requires TableInvariant(s)
    ensures NoDoubleReport(s.reports)
    ensures forall i :: 0 <= i < |s.reports| ==> Truthful(s.ledger, s.gaps, s.reports[i])
  {
  }
}
