/** What an interruption between a handler's two writes costs: the ledger then has the row, so no later
    scan runs the table statement. */
module Gaps {
  import opened Wrappers
  import opened Chain
  import opened Projection
  import opened Storage
  import opened IndexerMachine
  import opened TableSafety
  import opened ReorgBoundary

  lemma StepKeepsGaps(cfg: Config, s: State, a: Action)
    requires Enabled(cfg, s, a)
    ensures s.gaps <= After(cfg, s, a).gaps
  {
    hide WellFormed, LogsIn, OfContract, BlockAt, Apply, ReportFor, InLedger;
  }

  lemma {:induction false} GapsStay(cfg: Config, s: State, acts: seq<Action>)
    requires Run(cfg, s, acts).Some?
    ensures s.gaps <= Run(cfg, s, acts).value.gaps
  {
    if acts != [] {
      hide Enabled, After;
      var n := |acts| - 1;
      GapsStay(cfg, s, acts[..n]);
      StepKeepsGaps(cfg, Run(cfg, s, acts[..n]).value, acts[n]);
    }
  }

  lemma {:induction false} WithoutMembers(logs: seq<Log>, keys: set<Key>)
    ensures forall l :: l in Without(logs, keys) <==> l in logs && l.key !in keys
  {
    if logs != [] {
      WithoutMembers(logs[..|logs| - 1], keys);
      assert logs == logs[..|logs| - 1] + [logs[|logs| - 1]];
    }
  }

  /** Some submission of claim `id` is in the ledger and was not lost between its two writes. */
  ghost predicate SubmissionApplied(ledger: seq<Log>, missing: set<Key>, id: nat) {
    exists l :: l in ledger && About(l, id, {Submission}) && l.key !in missing
  }

  lemma SubmittedIn(logs: seq<Log>, id: nat)
    ensures (exists k: nat :: k < |logs| && About(logs[k], id, {Submission})) <==>
            (exists l :: l in logs && About(l, id, {Submission}))
  {
    hide About;
    if l :| l in logs && About(l, id, {Submission}) {
      var k :| 0 <= k < |logs| && logs[k] == l;
      assert About(logs[k], id, {Submission});
    }
  }

  lemma {:induction false} RowOfReplay(ledger: seq<Log>, missing: set<Key>, id: nat)
    ensures id in Replay(Without(ledger, missing)).claims <==> SubmissionApplied(ledger, missing, id)
  {
    hide About, Without, Replay;
    var applied := Without(ledger, missing);
    WithoutMembers(ledger, missing);
    SubmittedIn(applied, id);
    var _ := ClaimRowReads(applied, id);
  }

  /** In every reachable state a claim has a row exactly if some submission of it in the ledger was
      neither interrupted between its two writes nor is just now between them. */
  lemma ClaimRowExactly(cfg: Config, s: State, id: nat)
    requires Reachable(cfg, s)
    ensures id in s.tables.claims <==> SubmissionApplied(s.ledger, s.gaps + InFlight(s.phase), id)
  {
    hide Reachable, SubmissionApplied;
    TablesAreReplay(cfg, s);
    RowOfReplay(s.ledger, s.gaps + InFlight(s.phase), id);
  }

  /** Some registration of policy `id` was applied. */
  ghost predicate RegistrationApplied(ledger: seq<Log>, missing: set<Key>, id: nat) {
    exists i: nat :: Applied(ledger, missing, i, id, Registration)
  }

  /** Some revocation of policy `id` was applied after an applied registration. */
  ghost predicate RevocationApplied(ledger: seq<Log>, missing: set<Key>, id: nat) {
    exists i: nat, j: nat :: RevokedAt(ledger, missing, i, j, id)
  }

  /** Row `i` is an event of this kind about `id`, and its table statement ran. */
  predicate Applied(ledger: seq<Log>, missing: set<Key>, i: nat, id: nat, kind: Kind) {
    i < |ledger| && About(ledger[i], id, {kind}) && ledger[i].key !in missing
  }

  predicate RevokedAt(ledger: seq<Log>, missing: set<Key>, i: nat, j: nat, id: nat) {
    i < j && Applied(ledger, missing, i, id, Registration) && Applied(ledger, missing, j, id, Revocation)
  }

  lemma RegistrationSnoc(rows: seq<Log>, l: Log, missing: set<Key>, id: nat)
    ensures RegistrationApplied(rows + [l], missing, id) <==>
            RegistrationApplied(rows, missing, id) || (About(l, id, {Registration}) && l.key !in missing)
  {
    hide About;
    var more := rows + [l];
    if RegistrationApplied(rows, missing, id) {
      var i: nat :| Applied(rows, missing, i, id, Registration);
      assert Applied(more, missing, i, id, Registration);
    }
    if About(l, id, {Registration}) && l.key !in missing {
      assert Applied(more, missing, |rows|, id, Registration);
    }
    if RegistrationApplied(more, missing, id) {
      var i: nat :| Applied(more, missing, i, id, Registration);
      assert i < |rows| ==> Applied(rows, missing, i, id, Registration);
    }
  }

  lemma RevocationSnoc(rows: seq<Log>, l: Log, missing: set<Key>, id: nat)
    ensures RevocationApplied(rows + [l], missing, id) <==>
            || RevocationApplied(rows, missing, id)
            || (RegistrationApplied(rows, missing, id) && About(l, id, {Revocation}) && l.key !in missing)
  {
    hide About;
    var more := rows + [l];
    if RevocationApplied(rows, missing, id) {
      var i: nat, j: nat :| RevokedAt(rows, missing, i, j, id);
      assert RevokedAt(more, missing, i, j, id);
    }
    if RegistrationApplied(rows, missing, id) && About(l, id, {Revocation}) && l.key !in missing {
      var i: nat :| Applied(rows, missing, i, id, Registration);
      assert RevokedAt(more, missing, i, |rows|, id);
    }
    if RevocationApplied(more, missing, id) {
      var i: nat, j: nat :| RevokedAt(more, missing, i, j, id);
      assert Applied(rows, missing, i, id, Registration);
      assert j < |rows| ==> RevokedAt(rows, missing, i, j, id);
    }
  }

  lemma {:induction false} PolicyOfReplay(ledger: seq<Log>, missing: set<Key>, id: nat)
    ensures var policies := Replay(Without(ledger, missing)).policies;
            && (id in policies <==> RegistrationApplied(ledger, missing, id))
            && (id in policies ==> (policies[id].revoked <==> RevocationApplied(ledger, missing, id)))
    ensures RevocationApplied(ledger, missing, id) ==> RegistrationApplied(ledger, missing, id)
  {
    if ledger != [] {
      hide About, Apply, RegistrationApplied, RevocationApplied;
      var rest, l := ledger[..|ledger| - 1], ledger[|ledger| - 1];
      assert ledger == rest + [l];
      PolicyOfReplay(rest, missing, id);
      RegistrationSnoc(rest, l, missing, id);
      RevocationSnoc(rest, l, missing, id);
      ReplaySnoc(Without(rest, missing), l);
      PolicyStepOf(Replay(Without(rest, missing)), l, id);
    }
  }

  lemma PolicyStepOf(t: Tables, l: Log, id: nat)
    ensures var policies := Apply(t, l).policies;
            && (id in policies <==> id in t.policies || About(l, id, {Registration}))
            && (id in policies ==>
                  (policies[id].revoked <==>
                   id in t.policies && (t.policies[id].revoked || About(l, id, {Revocation}))))
  {
    PolicyEffect(t, l, id);
  }

  /** In every reachable state a policy has a row exactly if some registration of it in the ledger was applied,
      and is revoked exactly if a revocation of it after such a registration was applied. */
  lemma PolicyRowExactly(cfg: Config, s: State, id: nat)
    requires Reachable(cfg, s)
    ensures var missing := s.gaps + InFlight(s.phase);
            && (id in s.tables.policies <==> RegistrationApplied(s.ledger, missing, id))
            && (id in s.tables.policies ==>
                  (s.tables.policies[id].revoked <==> RevocationApplied(s.ledger, missing, id)))
  {
    hide Reachable, RegistrationApplied, RevocationApplied, Without, Replay;
    TablesAreReplay(cfg, s);
    PolicyOfReplay(s.ledger, s.gaps + InFlight(s.phase), id);
  }

  /** A claim whose every submission is a gap has no row, and no later run gives it one. */
  lemma LostClaimStaysLost(cfg: Config, s: State, acts: seq<Action>, t: State, id: nat)
    requires TableInvariant(s) && Run(cfg, s, acts) == Some(t)
    requires forall l :: l in t.ledger && About(l, id, {Submission}) ==> l.key in s.gaps
    ensures id !in t.tables.claims
  {
    hide TableInvariant, Run, About, Without, Replay;
    TableRunKeeps(cfg, s, acts);
    GapsStay(cfg, s, acts);
    TablesOfInvariant(t);
    RowOfReplay(t.ledger, t.gaps + InFlight(t.phase), id);
  }

  lemma TablesOfInvariant(t: State)
    requires TableInvariant(t)
    ensures t.tables == Replay(Without(t.ledger, t.gaps + InFlight(t.phase)))
  {
  }

  /** `lost` is the ledger's only submission of claim 0. */
  predicate OnlySubmission(ledger: seq<Log>, lost: Log) {
    forall l :: l in ledger && About(l, 0, {Submission}) ==> l == lost
  }

  /** A pass that records a submission and fails before the claim row is written. */
  lemma InterruptedSubmission(cfg: Config) returns (s: State, lost: Log)
    ensures Reachable(cfg, s) && s.phase.Idle?
    ensures s.ledger == [lost] && s.gaps == {lost.key} && s.tables == EMPTY_TABLES
    ensures lost == SampleLog(ClaimRegistry, cfg.claimDeploy, "a")
  {
    var d := cfg.claimDeploy;
    var head := d + cfg.margin;
    lost := SampleLog(ClaimRegistry, d, "a");
    hide LogsIn, WellFormed, OfContract, Reachable, OneLog;
    OneLogWellFormed(head, lost);
    s := RecordsThenFails(cfg, ClaimRegistry, OneLog(head, lost), head, lost);
  }

  lemma RecordsThenFails(cfg: Config, c: Contract, chain: Blocks, peak: nat, lost: Log) returns (s: State)
    requires cfg.SafeHead(peak) == cfg.Deploy(c) && |chain| == peak + 1 && WellFormed(chain)
    requires OfContract(LogsIn(chain, cfg.Deploy(c), cfg.Deploy(c) + 1), c) == [lost] && Recordable(lost)
    ensures Reachable(cfg, s) && s.phase.Idle?
    ensures s.ledger == [lost] && s.gaps == {lost.key} && s.tables == EMPTY_TABLES
  {
    hide LogsIn, WellFormed, OfContract, Run, Reachable, Recordable;
    var init, acts := RecordsDeployBlock(cfg, c, chain, peak, lost);
    s := FailsInserted(cfg, init, acts, Run(cfg, init, acts).value);
  }

  lemma FailsInserted(cfg: Config, init: State, acts: seq<Action>, s: State) returns (t: State)
    requires Initial(cfg, init) && Run(cfg, init, acts) == Some(s) && s.phase.Inserted?
    ensures Reachable(cfg, t) && t == s.(phase := Idle, gaps := s.gaps + {s.phase.log.key})
  {
    hide Run, Initial;
    RunStep(cfg, init, acts, s, Fail);
    t := After(cfg, s, Fail);
  }

  /** Under every configuration some run records a submission and fails before its claim row is written;
      whatever happens afterwards, the claim gets no row unless the chain submits it again. */
  lemma RescanDoesNotRepair(cfg: Config) returns (s: State, lost: Log)
    ensures Reachable(cfg, s) && s.phase.Idle?
    ensures lost in s.ledger && About(lost, 0, {Submission}) && s.tables != Replay(s.ledger)
    ensures forall acts, t | Run(cfg, s, acts) == Some(t) && OnlySubmission(t.ledger, lost) :: 0 !in t.tables.claims
  {
    s, lost := InterruptedSubmission(cfg);
    ReplayOfOne(lost);
    hide Run, Reachable, TableInvariant, Replay;
    TableInvariantHolds(cfg, s);
    forall acts, t | Run(cfg, s, acts) == Some(t) && OnlySubmission(t.ledger, lost)
      ensures 0 !in t.tables.claims
    {
      LostClaimStaysLost(cfg, s, acts, t, 0);
    }
  }

  lemma ReplayOfOne(l: Log)
    requires l.decoded.Known? && l.decoded.event.ClaimSubmitted?
    ensures Replay([l]) != EMPTY_TABLES
  {
    ReplaySnoc([], l);
    assert [] + [l] == [l];
    assert l.decoded.event.claimId in Replay([l]).claims;
  }
}
