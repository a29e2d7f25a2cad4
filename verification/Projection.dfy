/** The claim and policy tables, the one statement each handler runs on them, and their replay. */
module Projection {
  import opened Wrappers
  import opened Chain
  import Text

  datatype ClaimRow = ClaimRow(
    policyId: nat, claimant: string, merkleRoot: string, amount: nat, status: string,
    submittedTx: string, submittedBlock: nat, lastStatusTx: Option<string>, payoutTx: Option<string>)

  datatype PolicyRow = PolicyRow(
    holder: string, coverageAmount: nat, validFrom: nat, validUntil: nat, revoked: bool, registeredTx: string)

  datatype Tables = Tables(claims: map<nat, ClaimRow>, policies: map<nat, PolicyRow>)

  const EMPTY_TABLES := Tables(map[], map[])

  const CLAIM_STATUS_NAMES := ["submitted", "under_review", "approved", "paid", "rejected"]

  function StatusName(status: nat): string {
    if status < |CLAIM_STATUS_NAMES| then CLAIM_STATUS_NAMES[status]
    else "unknown(" + Text.Decimal(status) + ")"
  }

  /** The five states of the claim contract in their order, and what is shown for any other number. */
  lemma StatusNames(status: nat)
    ensures StatusName(0) == "submitted" && StatusName(1) == "under_review" && StatusName(2) == "approved"
    ensures StatusName(3) == "paid" && StatusName(4) == "rejected"
    ensures status > 4 ==> StatusName(status) == "unknown(" + Text.Decimal(status) + ")"
  {
  }

  /** The row a submission inserts. */
  function SubmittedRow(l: Log): ClaimRow
    requires l.decoded.Known? && l.decoded.event.ClaimSubmitted?
  {
    var e := l.decoded.event;
    ClaimRow(e.policyId, Text.ToLower(e.claimant), e.merkleRoot, e.amount, "submitted",
             l.key.txHash, l.block, None, None)
  }

  /** INSERT ... ON CONFLICT (onchain_claim_id) DO NOTHING. */
  function SubmitClaim(t: Tables, l: Log): Tables
    requires l.decoded.Known? && l.decoded.event.ClaimSubmitted?
  {
    var e := l.decoded.event;
    if e.claimId in t.claims then t else
    t.(claims := t.claims[e.claimId := SubmittedRow(l)])
  }

  /** UPDATE onchain_claims SET status, last_status_tx_hash. */
  function ChangeStatus(t: Tables, l: Log): Tables
    requires l.decoded.Known? && l.decoded.event.ClaimStatusChanged?
  {
    var e := l.decoded.event;
    if e.claimId !in t.claims then t else
    t.(claims := t.claims[e.claimId :=
      t.claims[e.claimId].(status := StatusName(e.status), lastStatusTx := Some(l.key.txHash))])
  }

  /** UPDATE onchain_claims SET status = 'paid', payout_tx_hash. */
  function PayClaim(t: Tables, l: Log): Tables
    requires l.decoded.Known? && l.decoded.event.ClaimPayout?
  {
    var e := l.decoded.event;
    if e.claimId !in t.claims then t else
    t.(claims := t.claims[e.claimId :=
      t.claims[e.claimId].(status := "paid", payoutTx := Some(l.key.txHash))])
  }

  /** INSERT ... ON CONFLICT (onchain_policy_id) DO NOTHING. */
  function RegisterPolicy(t: Tables, l: Log): Tables
    requires l.decoded.Known? && l.decoded.event.PolicyRegistered?
  {
    var e := l.decoded.event;
    if e.policyId in t.policies then t else
    t.(policies := t.policies[e.policyId := PolicyRow(
      Text.ToLower(e.holder), e.coverageAmount, e.validFrom, e.validUntil, false, l.key.txHash)])
  }

  /** UPDATE onchain_policies SET revoked = true. */
  function RevokePolicy(t: Tables, l: Log): Tables
    requires l.decoded.Known? && l.decoded.event.PolicyRevoked?
  {
    var e := l.decoded.event;
    if e.policyId !in t.policies then t else
    t.(policies := t.policies[e.policyId := t.policies[e.policyId].(revoked := true)])
  }

  /** The table statement of the handler that `listener.js` dispatches to. */
  function Apply(t: Tables, l: Log): Tables {
    match l.decoded
    case Throws => t
    case NoMatch => t
    case Known(e) =>
      match e
      case ClaimSubmitted(_, _, _, _, _, _) => SubmitClaim(t, l)
      case ClaimStatusChanged(_, _) => ChangeStatus(t, l)
      case ClaimPayout(_, _, _, _) => PayClaim(t, l)
      case PolicyRegistered(_, _, _, _, _) => RegisterPolicy(t, l)
      case PolicyRevoked(_) => RevokePolicy(t, l)
  }

  /** The tables after handling `logs` in order, with nothing interrupted. */
  function Replay(logs: seq<Log>): Tables {
    if logs == [] then EMPTY_TABLES else Apply(Replay(logs[..|logs| - 1]), logs[|logs| - 1])
  }

  /** The webhook body. */
  datatype Report = Report(eventName: string, claimId: nat, merkleRoot: string, txHash: string, status: string)

  /** The webhook a handler sends once its table statement left `t`, if it sends one. */
  function ReportFor(t: Tables, l: Log): Option<Report> {
    match l.decoded
    case Throws => None
    case NoMatch => None
    case Known(e) =>
      match e
      case ClaimSubmitted(id, _, _, root, _, _) => Some(Report("ClaimSubmitted", id, root, l.key.txHash, "submitted"))
      case ClaimStatusChanged(id, status) =>
        if id in t.claims
        then Some(Report("ClaimStatusChanged", id, t.claims[id].merkleRoot, l.key.txHash, StatusName(status)))
        else None
      case ClaimPayout(id, _, _, _) =>
        if id in t.claims
        then Some(Report("ClaimPayout", id, t.claims[id].merkleRoot, l.key.txHash, "paid"))
        else None
      case PolicyRegistered(_, _, _, _, _) => None
      case PolicyRevoked(_) => None
  }

  /** What report `r` of log `l` says, given the tables it left: the event's name and claim and the log's
      transaction; for a submission the event's Merkle root and "submitted", for a status change or payout the
      root and status of the claim's row. */
  predicate Carries(t: Tables, l: Log, r: Report) {
    && l.decoded.Known?
    && var e := l.decoded.event;
       && (e.ClaimSubmitted? || e.ClaimStatusChanged? || e.ClaimPayout?)
       && r.claimId == e.claimId && r.txHash == l.key.txHash
       && (e.ClaimSubmitted? ==>
             r.eventName == "ClaimSubmitted" && r.merkleRoot == e.merkleRoot && r.status == "submitted")
       && (e.ClaimStatusChanged? ==> r.eventName == "ClaimStatusChanged")
       && (e.ClaimPayout? ==> r.eventName == "ClaimPayout")
       && (!e.ClaimSubmitted? ==>
             && e.claimId in t.claims
             && r.merkleRoot == t.claims[e.claimId].merkleRoot && r.status == t.claims[e.claimId].status)
  }

  /** A report is sent for a submission, and for a status change or payout of a claim that has a row; and it
      says what the tables say once the log is in them. */
  lemma ReportsExactly(t: Tables, l: Log)
    ensures ReportFor(Apply(t, l), l).Some? <==>
            && l.decoded.Known?
            && var e := l.decoded.event;
               e.ClaimSubmitted? || ((e.ClaimStatusChanged? || e.ClaimPayout?) && e.claimId in t.claims)
    ensures ReportFor(Apply(t, l), l).Some? ==> Carries(Apply(t, l), l, ReportFor(Apply(t, l), l).value)
  {
  }

  // ----- a declarative reading of the tables

  datatype Kind = Submission | StatusChange | Payout | Registration | Revocation

  function KindOf(e: Event): Kind {
    match e
    case ClaimSubmitted(_, _, _, _, _, _) => Submission
    case ClaimStatusChanged(_, _) => StatusChange
    case ClaimPayout(_, _, _, _) => Payout
    case PolicyRegistered(_, _, _, _, _) => Registration
    case PolicyRevoked(_) => Revocation
  }

  /** The claim or policy number an event is about. */
  function Subject(e: Event): nat {
    if e.PolicyRegistered? || e.PolicyRevoked? then e.policyId else e.claimId
  }

  /** `l` is an event of one of the `kinds` about number `id`. */
  predicate About(l: Log, id: nat, kinds: set<Kind>) {
    l.decoded.Known? && Subject(l.decoded.event) == id && KindOf(l.decoded.event) in kinds
  }

  ghost predicate IsFirst(logs: seq<Log>, i: nat, id: nat, kinds: set<Kind>) {
    i < |logs| && About(logs[i], id, kinds) && forall k :: 0 <= k < i ==> !About(logs[k], id, kinds)
  }

  ghost predicate IsLastAfter(logs: seq<Log>, i: nat, j: nat, id: nat, kinds: set<Kind>) {
    i < j < |logs| && About(logs[j], id, kinds) && NoneAfter(logs, j, id, kinds)
  }

  ghost predicate NoneAfter(logs: seq<Log>, i: nat, id: nat, kinds: set<Kind>) {
    forall k :: i < k < |logs| ==> !About(logs[k], id, kinds)
  }

  /** `tx` is the transaction of the last log after `i` of these kinds, or nothing if there is none. */
  ghost predicate IsLastTx(logs: seq<Log>, i: nat, id: nat, kinds: set<Kind>, tx: Option<string>) {
    match tx
    case None => NoneAfter(logs, i, id, kinds)
    case Some(h) => exists j: nat :: IsLastAfter(logs, i, j, id, kinds) && logs[j].key.txHash == h
  }

  /** The status that a change or a payout sets. */
  function StatusSet(e: Event): string {
    if e.ClaimStatusChanged? then StatusName(e.status) else "paid"
  }

  /** `status` is set by the last change or payout after `i`, or is "submitted" if there is none. */
  ghost predicate IsLastStatus(logs: seq<Log>, i: nat, id: nat, status: string) {
    if NoneAfter(logs, i, id, {StatusChange, Payout}) then status == "submitted"
    else exists j: nat :: && IsLastAfter(logs, i, j, id, {StatusChange, Payout})
                          && status == StatusSet(logs[j].decoded.event)
  }

  /** `row` is what `logs` say about a claim first submitted at position `i`. */
  ghost predicate ClaimReads(logs: seq<Log>, id: nat, i: nat, row: ClaimRow) {
    && IsFirst(logs, i, id, {Submission})
    && (var e := logs[i].decoded.event;
        row.policyId == e.policyId && row.claimant == Text.ToLower(e.claimant) &&
        row.merkleRoot == e.merkleRoot && row.amount == e.amount)
    && row.submittedTx == logs[i].key.txHash && row.submittedBlock == logs[i].block
    && IsLastStatus(logs, i, id, row.status)
    && IsLastTx(logs, i, id, {StatusChange}, row.lastStatusTx)
    && IsLastTx(logs, i, id, {Payout}, row.payoutTx)
  }

  /** `row` is what `logs` say about a policy first registered at position `i`. */
  ghost predicate PolicyReads(logs: seq<Log>, id: nat, i: nat, row: PolicyRow) {
    && IsFirst(logs, i, id, {Registration})
    && (var e := logs[i].decoded.event;
        row.holder == Text.ToLower(e.holder) && row.coverageAmount == e.coverageAmount &&
        row.validFrom == e.validFrom && row.validUntil == e.validUntil)
    && row.registeredTx == logs[i].key.txHash
    && (row.revoked <==> !NoneAfter(logs, i, id, {Revocation}))
  }

  /** One more log that sets nothing new leaves the last transaction of these kinds, else becomes it. */
  lemma LastTxStep(logs: seq<Log>, l: Log, i: nat, id: nat, kinds: set<Kind>, tx: Option<string>)
    requires i < |logs| && IsLastTx(logs, i, id, kinds, tx)
    ensures IsLastTx(logs + [l], i, id, kinds, if About(l, id, kinds) then Some(l.key.txHash) else tx)
  {
    var more := logs + [l];
    if About(l, id, kinds) {
      assert IsLastAfter(more, i, |logs|, id, kinds);
    } else if tx.Some? {
      var j: nat :| IsLastAfter(logs, i, j, id, kinds) && logs[j].key.txHash == tx.value;
      assert IsLastAfter(more, i, j, id, kinds);
    }
  }

  lemma LastStatusStep(logs: seq<Log>, l: Log, i: nat, id: nat, status: string)
    requires i < |logs| && IsLastStatus(logs, i, id, status)
    ensures IsLastStatus(logs + [l], i, id,
                         if About(l, id, {StatusChange, Payout}) then StatusSet(l.decoded.event) else status)
  {
    var more := logs + [l];
    var kinds := {StatusChange, Payout};
    if About(l, id, kinds) {
      assert IsLastAfter(more, i, |logs|, id, kinds);
    } else if !NoneAfter(logs, i, id, kinds) {
      var j: nat :| IsLastAfter(logs, i, j, id, kinds) && status == StatusSet(logs[j].decoded.event);
      assert IsLastAfter(more, i, j, id, kinds);
      assert About(more[j], id, kinds);
    } else {
      assert NoneAfter(more, i, id, kinds);
    }
  }

  /** What one log does to one claim's row. */
  lemma ClaimEffect(t: Tables, l: Log, id: nat)
    ensures id in Apply(t, l).claims <==> id in t.claims || About(l, id, {Submission})
    ensures id !in t.claims && About(l, id, {Submission}) ==> Apply(t, l).claims[id] == SubmittedRow(l)
    ensures id in t.claims ==>
              var row := t.claims[id];
              Apply(t, l).claims[id] == row.(
              status := if About(l, id, {StatusChange, Payout}) then StatusSet(l.decoded.event) else row.status,
              lastStatusTx := if About(l, id, {StatusChange}) then Some(l.key.txHash) else row.lastStatusTx,
              payoutTx := if About(l, id, {Payout}) then Some(l.key.txHash) else row.payoutTx)
  {
  }

  /** What one log does to one policy's row. */
  lemma PolicyEffect(t: Tables, l: Log, id: nat)
    ensures id in Apply(t, l).policies <==> id in t.policies || About(l, id, {Registration})
    ensures id !in t.policies && About(l, id, {Registration}) ==>
              var e := l.decoded.event;
              Apply(t, l).policies[id] ==
              PolicyRow(Text.ToLower(e.holder), e.coverageAmount, e.validFrom, e.validUntil, false, l.key.txHash)
    ensures id in t.policies ==>
              var row := t.policies[id];
              Apply(t, l).policies[id] == row.(revoked := row.revoked || About(l, id, {Revocation}))
  {
  }

  lemma ClaimStep(logs: seq<Log>, l: Log, id: nat, i: nat, row: ClaimRow, row': ClaimRow)
    requires ClaimReads(logs, id, i, row)
    requires row' == row.(
             status := if About(l, id, {StatusChange, Payout}) then StatusSet(l.decoded.event) else row.status,
             lastStatusTx := if About(l, id, {StatusChange}) then Some(l.key.txHash) else row.lastStatusTx,
             payoutTx := if About(l, id, {Payout}) then Some(l.key.txHash) else row.payoutTx)
    ensures ClaimReads(logs + [l], id, i, row')
  {
    LastTxStep(logs, l, i, id, {StatusChange}, row.lastStatusTx);
    LastTxStep(logs, l, i, id, {Payout}, row.payoutTx);
    LastStatusStep(logs, l, i, id, row.status);
    assert IsFirst(logs + [l], i, id, {Submission});
  }

  /** A claim has a row exactly when some log submits it, and its row reads off the logs: identity
      and amount from the first submission, status from the last later change or payout. */
  lemma {:induction false} ClaimRowReads(logs: seq<Log>, id: nat) returns (i: nat)
    ensures id in Replay(logs).claims <==> exists k: nat :: k < |logs| && About(logs[k], id, {Submission})
    ensures id in Replay(logs).claims ==> ClaimReads(logs, id, i, Replay(logs).claims[id])
  {
    i := 0;
    if logs != [] {
      var n := |logs| - 1;
      var before, l := Replay(logs[..n]), logs[n];
      i := ClaimRowReads(logs[..n], id);
      ClaimEffect(before, l, id);
      assert logs == logs[..n] + [l];
      if id in before.claims {
        var k: nat :| k < n && About(logs[..n][k], id, {Submission});
        assert About(logs[k], id, {Submission});
        ClaimStep(logs[..n], l, id, i, before.claims[id], Replay(logs).claims[id]);
      } else {
        assert forall k: nat :: k < n ==> logs[k] == logs[..n][k];
        i := n;
      }
    }
  }

  /** A policy has a row exactly when some log registers it; its data come from the first
      registration, and it is revoked exactly when a revocation follows that registration. */
  lemma {:induction false} PolicyRowReads(logs: seq<Log>, id: nat) returns (i: nat)
    ensures id in Replay(logs).policies <==> exists k: nat :: k < |logs| && About(logs[k], id, {Registration})
    ensures id in Replay(logs).policies ==> PolicyReads(logs, id, i, Replay(logs).policies[id])
  {
    i := 0;
    if logs != [] {
      var n := |logs| - 1;
      var before, l := Replay(logs[..n]), logs[n];
      i := PolicyRowReads(logs[..n], id);
      PolicyEffect(before, l, id);
      assert forall k: nat :: k < n ==> logs[k] == logs[..n][k];
      if id in before.policies {
        var k: nat :| k < n && About(logs[..n][k], id, {Registration});
        assert About(logs[k], id, {Registration});
        assert NoneAfter(logs, i, id, {Revocation}) <==>
               NoneAfter(logs[..n], i, id, {Revocation}) && !About(l, id, {Revocation});
      } else {
        i := n;
      }
    }
  }

  lemma LastTxIsUnique(logs: seq<Log>, i: nat, id: nat, kinds: set<Kind>, tx: Option<string>, other: Option<string>)
    requires IsLastTx(logs, i, id, kinds, tx) && IsLastTx(logs, i, id, kinds, other)
    ensures tx == other
  {
    if tx.Some? && other.Some? {
      var j: nat :| IsLastAfter(logs, i, j, id, kinds) && logs[j].key.txHash == tx.value;
      var k: nat :| IsLastAfter(logs, i, k, id, kinds) && logs[k].key.txHash == other.value;
      assert !(j < k) && !(k < j);
    }
  }

  lemma LastStatusIsUnique(logs: seq<Log>, i: nat, id: nat, status: string, other: string)
    requires IsLastStatus(logs, i, id, status) && IsLastStatus(logs, i, id, other)
    ensures status == other
  {
    if !NoneAfter(logs, i, id, {StatusChange, Payout}) {
      var j: nat :| IsLastAfter(logs, i, j, id, {StatusChange, Payout}) && status == StatusSet(logs[j].decoded.event);
      var k: nat :| IsLastAfter(logs, i, k, id, {StatusChange, Payout}) && other == StatusSet(logs[k].decoded.event);
      assert !(j < k) && !(k < j);
    }
  }

  /** A row is determined by the logs: two rows that read the same logs are the same row. */
  lemma ClaimReadingIsUnique(logs: seq<Log>, id: nat, i: nat, j: nat, row: ClaimRow, other: ClaimRow)
    requires ClaimReads(logs, id, i, row) && ClaimReads(logs, id, j, other)
    ensures i == j && row == other
  {
    assert i == j by {
      assert !(i < j) && !(j < i);
    }
    LastStatusIsUnique(logs, i, id, row.status, other.status);
    LastTxIsUnique(logs, i, id, {StatusChange}, row.lastStatusTx, other.lastStatusTx);
    LastTxIsUnique(logs, i, id, {Payout}, row.payoutTx, other.payoutTx);
    hide StatusSet, About, IsLastStatus, IsLastTx;
  }

  // ----- each table depends on its own contract's logs only

  lemma ApplyIsPerTable(t: Tables, u: Tables, l: Log)
    ensures t.claims == u.claims ==> Apply(t, l).claims == Apply(u, l).claims
    ensures t.policies == u.policies ==> Apply(t, l).policies == Apply(u, l).policies
    ensures l.decoded.Known? && l.decoded.event.Emitter() == InsurancePolicy ==> Apply(t, l).claims == t.claims
    ensures l.decoded.Known? && l.decoded.event.Emitter() == ClaimRegistry ==> Apply(t, l).policies == t.policies
    ensures !l.decoded.Known? ==> Apply(t, l) == t
  {
  }

  lemma ReplaySnoc(logs: seq<Log>, l: Log)
    ensures Replay(logs + [l]) == Apply(Replay(logs), l)
  {
    assert (logs + [l])[..|logs|] == logs;
  }

  /** Replaying one contract's logs, one log further. */
  lemma ContractReplayStep(rest: seq<Log>, l: Log, c: Contract)
    ensures Replay(OfContract(rest + [l], c)) ==
            if l.contract == c then Apply(Replay(OfContract(rest, c)), l) else Replay(OfContract(rest, c))
  {
    OfContractSnoc(rest, l, c);
    ReplaySnoc(OfContract(rest, c), l);
  }

  lemma TablesStep(rest: seq<Log>, l: Log)
    requires l.decoded.Known? ==> l.decoded.event.Emitter() == l.contract
    requires Replay(rest).claims == Replay(OfContract(rest, ClaimRegistry)).claims
    requires Replay(rest).policies == Replay(OfContract(rest, InsurancePolicy)).policies
    ensures Replay(rest + [l]).claims == Replay(OfContract(rest + [l], ClaimRegistry)).claims
    ensures Replay(rest + [l]).policies == Replay(OfContract(rest + [l], InsurancePolicy)).policies
  {
    ReplaySnoc(rest, l);
    ContractReplayStep(rest, l, ClaimRegistry);
    ContractReplayStep(rest, l, InsurancePolicy);
    ApplyIsPerTable(Replay(rest), Replay(OfContract(rest, l.contract)), l);
  }

  /** Each table is the replay of its own contract's logs, however the two contracts' logs interleave. */
  lemma {:induction false} TablesArePerContract(logs: seq<Log>)
    requires DecodedByOwnAbi(logs)
    ensures Replay(logs).claims == Replay(OfContract(logs, ClaimRegistry)).claims
    ensures Replay(logs).policies == Replay(OfContract(logs, InsurancePolicy)).policies
  {
    if logs != [] {
      hide Apply, Replay, OfContract;
      var n := |logs| - 1;
      assert logs == logs[..n] + [logs[n]];
      assert logs[n] in logs;
      TablesArePerContract(logs[..n]);
      TablesStep(logs[..n], logs[n]);
    }
  }
}
