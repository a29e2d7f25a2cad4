/** What no run ever brings into the database: status changes, whose data the driver cannot write, and table rows
    whose values the columns reject. Like the table results, these hold under every configuration. */
module LostEvents {
  import opened Wrappers
  import opened Chain
  import opened Projection
  import opened Storage
  import opened IndexerMachine
  import opened TableSafety
  import opened Gaps

  /** Every row could be recorded, and its table statement either was accepted or has not taken effect. */
  predicate StoredOk(ledger: seq<Log>, missing: set<Key>) {
    forall e :: e in ledger ==> Recordable(e) && (Writable(e) || e.key in missing)
  }

  predicate StorageInvariant(s: State) {
    StoredOk(s.ledger, s.gaps + InFlight(s.phase)) && (s.phase.Inserted? ==> s.phase.log in s.ledger)
  }

  lemma AcceptedWrite(ledger: seq<Log>, missing: set<Key>, log: Log)
    requires DistinctKeys(ledger) && log in ledger && Writable(log) && StoredOk(ledger, missing + {log.key})
    ensures StoredOk(ledger, missing)
  {
    hide Recordable, Writable;
    forall e | e in ledger
      ensures Recordable(e) && (Writable(e) || e.key in missing)
    {
      if e.key == log.key {
        var i :| 0 <= i < |ledger| && ledger[i] == e;
        var j :| 0 <= j < |ledger| && ledger[j] == log;
        assert !(i < j) && !(j < i);
      }
    }
  }

  lemma StorageStep(cfg: Config, s: State, a: Action)
    requires DistinctKeys(s.ledger) && StorageInvariant(s) && Enabled(cfg, s, a)
    ensures StorageInvariant(After(cfg, s, a))
  {
    hide WellFormed, LogsIn, OfContract, BlockAt, Apply, ReportFor, InLedger, Recordable, Writable, DistinctKeys;
    if a.WriteTable? {
      AcceptedWrite(s.ledger, s.gaps, s.phase.log);
      assert s.gaps + {} == s.gaps;
    }
  }

  lemma {:induction false} StorageRun(cfg: Config, s: State, acts: seq<Action>)
    requires TableInvariant(s) && StorageInvariant(s) && Run(cfg, s, acts).Some?
    ensures StorageInvariant(Run(cfg, s, acts).value)
  {
    if acts != [] {
      hide TableInvariant, StorageInvariant, Enabled, After, DistinctKeys;
      var n := |acts| - 1;
      StorageRun(cfg, s, acts[..n]);
      TableRunKeeps(cfg, s, acts[..n]);
      assert DistinctKeys(Run(cfg, s, acts[..n]).value.ledger) by { RowsDistinct(Run(cfg, s, acts[..n]).value); }
      StorageStep(cfg, Run(cfg, s, acts[..n]).value, acts[n]);
    }
  }

  lemma RowsDistinct(s: State)
    requires TableInvariant(s)
    ensures DistinctKeys(s.ledger)
  {
  }

  lemma StorageHolds(cfg: Config, s: State)
    requires Reachable(cfg, s)
    ensures StorageInvariant(s)
  {
    hide TableInvariant, WellFormed;
    var init, acts :| Initial(cfg, init) && Run(cfg, init, acts) == Some(s);
    InitiallyHolds(cfg, init);
    StorageRun(cfg, init, acts);
  }

  /** What the tables are made of was recorded and accepted, whatever the chain holds. */
  lemma OnlyStorableIsApplied(cfg: Config, s: State)
    requires Reachable(cfg, s)
    ensures forall l :: l in s.ledger ==> Recordable(l)
    ensures forall l :: l in Without(s.ledger, s.gaps + InFlight(s.phase)) ==> Writable(l)
  {
    hide Reachable, Recordable, Writable, Without;
    StorageHolds(cfg, s);
    WithoutMembers(s.ledger, s.gaps + InFlight(s.phase));
  }

  /** A policy with a row was registered with values in range: one that is only ever registered until after the
      last timestamp never has a row. */
  lemma PolicyRowIsInRange(cfg: Config, s: State, id: nat)
    requires Reachable(cfg, s) && id in s.tables.policies
    ensures id < BIGINT_END
    ensures exists l :: l in s.ledger && About(l, id, {Registration}) && l.decoded.event.validUntil < TIMESTAMP_END
  {
    hide Reachable, Writable, Without, RevocationApplied;
    PolicyRowExactly(cfg, s, id);
    OnlyStorableIsApplied(cfg, s);
    var missing := s.gaps + InFlight(s.phase);
    var i: nat :| Applied(s.ledger, missing, i, id, Registration);
    WithoutMembers(s.ledger, missing);
    assert s.ledger[i] in Without(s.ledger, missing);
    RegistrationInRange(s.ledger[i], id);
  }

  lemma RegistrationInRange(l: Log, id: nat)
    requires About(l, id, {Registration}) && Writable(l)
    ensures id < BIGINT_END && l.decoded.event.validUntil < TIMESTAMP_END
  {
  }

  /** Whatever the chain holds: every claim with a row has an eight-byte number and policy number, every policy with
      a row an eight-byte number and a validity that ends, like it begins, at a timestamp. */
  lemma TablesAreInRange(cfg: Config, s: State, id: nat)
    requires Reachable(cfg, s)
    ensures id in s.tables.claims ==>
              id < 9_223_372_036_854_775_808 && s.tables.claims[id].policyId < 9_223_372_036_854_775_808
    ensures id in s.tables.policies ==>
              && id < 9_223_372_036_854_775_808
              && s.tables.policies[id].validFrom < 9_224_318_016_000
              && s.tables.policies[id].validUntil < 9_224_318_016_000
  {
    hide Reachable, Writable, Recordable, Without, Replay, IsLastStatus, IsLastTx;
    OnlyStorableIsApplied(cfg, s);
    TablesAreReplay(cfg, s);
    var applied := Without(s.ledger, s.gaps + InFlight(s.phase));
    var i := ClaimRowReads(applied, id);
    var j := PolicyRowReads(applied, id);
    if id in s.tables.claims {
      assert applied[i] in applied;
      WritableExactly(applied[i]);
    }
    if id in s.tables.policies {
      assert applied[j] in applied;
      WritableExactly(applied[j]);
    }
  }

  // ----- status changes

  predicate NoStatusChange(logs: seq<Log>) {
    forall k :: 0 <= k < |logs| ==> !(logs[k].decoded.Known? && logs[k].decoded.event.ClaimStatusChanged?)
  }

  /** A row that reads logs without a status change is submitted or paid. */
  lemma ReadsSubmittedOrPaid(logs: seq<Log>, id: nat, i: nat, row: ClaimRow)
    requires ClaimReads(logs, id, i, row) && NoStatusChange(logs)
    ensures row.lastStatusTx == None && (row.status == "submitted" || row.status == "paid")
  {
    if !NoneAfter(logs, i, id, {StatusChange, Payout}) {
      var j: nat :| && IsLastAfter(logs, i, j, id, {StatusChange, Payout})
                    && row.status == StatusSet(logs[j].decoded.event);
    }
  }

  lemma AppliedHasNone(logs: seq<Log>, missing: set<Key>)
    requires forall l :: l in logs ==> Recordable(l)
    ensures NoStatusChange(logs) && NoStatusChange(Without(logs, missing))
  {
    hide Recordable, Without;
    WithoutMembers(logs, missing);
    forall l | l in logs
      ensures !(l.decoded.Known? && l.decoded.event.ClaimStatusChanged?)
    {
      if l.decoded.Known? {
        StatusChangesAreUnrecordable(l);
      }
    }
    assert forall k :: 0 <= k < |Without(logs, missing)| ==> Without(logs, missing)[k] in Without(logs, missing);
  }

  lemma ReportsNoChange(ledger: seq<Log>, gaps: set<Key>, sent: Sent)
    requires Truthful(ledger, gaps, sent) && NoStatusChange(ledger)
    ensures sent.report.eventName != "ClaimStatusChanged"
  {
    hide Replay, Without;
    var k: nat :| k < |ledger| && ReportsRow(ledger, gaps, sent, k);
  }

  /** In every reachable state no status change is recorded, every claim is submitted or paid, whatever the chain
      decided in between, and no status change was ever reported. */
  lemma StatusesNeverChange(cfg: Config, s: State, id: nat)
    requires Reachable(cfg, s)
    ensures NoStatusChange(s.ledger)
    ensures id in s.tables.claims ==>
              var row := s.tables.claims[id];
              row.lastStatusTx == None && (row.status == "submitted" || row.status == "paid")
    ensures forall i :: 0 <= i < |s.reports| ==> s.reports[i].report.eventName != "ClaimStatusChanged"
  {
    hide Reachable, Recordable, Writable, Without, Replay, NoStatusChange, Truthful, ClaimReads;
    OnlyStorableIsApplied(cfg, s);
    TablesAreReplay(cfg, s);
    AppliedHasNone(s.ledger, s.gaps + InFlight(s.phase));
    var i := ClaimRowReads(Without(s.ledger, s.gaps + InFlight(s.phase)), id);
    if id in s.tables.claims {
      ReadsSubmittedOrPaid(Without(s.ledger, s.gaps + InFlight(s.phase)), id, i, s.tables.claims[id]);
    }
    ReportsAreTruthful(cfg, s);
    forall i | 0 <= i < |s.reports|
      ensures s.reports[i].report.eventName != "ClaimStatusChanged"
    {
      ReportsNoChange(s.ledger, s.gaps, s.reports[i]);
    }
  }
}
