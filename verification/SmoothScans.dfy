/** Scans without a failed call: exactly when there are any. And what no run ever brings into the tables. */
module SmoothScans {
  import opened Wrappers
  import opened Chain
  import opened Projection
  import opened Storage
  import opened IndexerMachine
  import opened LedgerSafety
  import opened TableSafety
  import opened BlockedScans
  import opened Gaps

  /** A row that is new since `before` passed its table, or is being written. */
  predicate NewAreWritable(before: seq<Log>, t: State) {
    forall e :: e in t.ledger ==> e in before || Writable(e) || (t.phase.Inserted? && t.phase.log == e)
  }

  lemma SmoothStep(cfg: Config, before: seq<Log>, t: State, a: Action)
    requires NewAreWritable(before, t) && Enabled(cfg, t, a) && !a.Fail?
    ensures NewAreWritable(before, After(cfg, t, a))
  {
    hide WellFormed, LogsIn, OfContract, BlockAt, Apply, ReportFor, InLedger, Recordable, Writable;
  }

  lemma {:induction false} SmoothRun(cfg: Config, s: State, acts: seq<Action>)
    requires Run(cfg, s, acts).Some? && Fail !in acts
    ensures NewAreWritable(s.ledger, Run(cfg, s, acts).value)
  {
    if acts != [] {
      hide NewAreWritable, Enabled, After;
      var n := |acts| - 1;
      SmoothRun(cfg, s, acts[..n]);
      SmoothStep(cfg, s.ledger, Run(cfg, s, acts[..n]).value, acts[n]);
    }
  }

  /** Some run from `s` without a failed call ends between scans with `c` checked off up to block `b`. */
  ghost predicate CanReachSmoothly(cfg: Config, s: State, c: Contract, b: nat) {
    exists acts, t :: Run(cfg, s, acts) == Some(t) && Fail !in acts && t.phase.Idle? && Reaches(t, c, b)
  }

  /** Once `c` is checked off up to a final block, every recordable log of `c` up to there is a row. */
  lemma CheckedOffIsRecorded(cfg: Config, s: State, c: Contract, b: nat, t: State, l: Log)
    requires ReadsOnlyFinalBlocks(cfg) && Invariant(cfg, s) && Invariant(cfg, t)
    requires WorldMoved(cfg, s.chain, s.peak, t.chain, t.peak) && b < Frozen(cfg, s.peak) && Reaches(t, c, b)
    requires ResumeFrom(cfg, s.checkpoints, c) <= b
    requires l in OfContract(LogsIn(s.chain, ResumeFrom(cfg, s.checkpoints, c), b + 1), c) && l.decoded.Known?
    ensures l in t.ledger
  {
    hide OfContract, LogsIn, Recognised, PhaseOk, WorldOk, LedgerOk, BlockAt, DistinctKeys, Final;
    var from, d, resume := ResumeFrom(cfg, s.checkpoints, c), cfg.Deploy(c), ResumeFrom(cfg, t.checkpoints, c);
    ResumesAfterDeploy(cfg, s, c);
    PartsOf(s.chain, c, d, from, b + 1);
    LogsInAgree(t.chain, s.chain, d, b + 1);
    PartsOf(t.chain, c, d, b + 1, resume);
    RecognisedMembers(OfContract(LogsIn(t.chain, d, resume), c));
    assert c == InsurancePolicy || c == ClaimRegistry;
    InvariantIsFaithful(cfg, t, c);
    assert l in Due(cfg, t.chain, c, resume);
    PrefixHolds(Due(cfg, t.chain, c, resume), OfContract(t.ledger, c), l);
    OfContractMembers(t.ledger, c);
  }

  lemma PrefixHolds(due: seq<Log>, rows: seq<Log>, l: Log)
    requires due <= rows && l in due
    ensures l in rows
  {
  }

  /** Whoever gets there without a failed call met no log that its table rejects. */
  lemma SmoothMeetsNoRejection(cfg: Config, s: State, c: Contract, b: nat, acts: seq<Action>, t: State)
    requires ReadsOnlyFinalBlocks(cfg) && Reachable(cfg, s) && Run(cfg, s, acts) == Some(t) && Fail !in acts
    requires t.phase.Idle? && ResumeFrom(cfg, s.checkpoints, c) <= b < Frozen(cfg, s.peak) && Reaches(t, c, b)
    ensures NoneRejected(s.ledger, OfContract(LogsIn(s.chain, ResumeFrom(cfg, s.checkpoints, c), b + 1), c))
  {
    hide OfContract, LogsIn, Invariant, Reachable, Run, Serialisable, EventData, Writable, WorldMoved;
    LedgerInvariantHolds(cfg, s);
    RunKeeps(cfg, s, acts);
    RunMovesWorld(cfg, s, acts);
    SmoothRun(cfg, s, acts);
    forall l | l in OfContract(LogsIn(s.chain, ResumeFrom(cfg, s.checkpoints, c), b + 1), c)
      ensures !Rejected(s.ledger, l)
    {
      if Rejected(s.ledger, l) {
        CheckedOffIsRecorded(cfg, s, c, b, t, l);
        assert false;
      }
    }
  }

  /** From any reachable state between scans, a run without a failed call can check `c` off up to the safe head
      of `head` if and only if none of the logs of `c` still to be read is blocking, and each of them that is
      not a row yet finds its values in the range of its table's columns. */
  lemma SmoothExactly(cfg: Config, s: State, c: Contract, head: nat)
    requires ReadsOnlyFinalBlocks(cfg) && Reachable(cfg, s) && s.phase.Idle? && head <= s.peak
    requires ResumeFrom(cfg, s.checkpoints, c) <= cfg.SafeHead(head)
    ensures CanReachSmoothly(cfg, s, c, cfg.SafeHead(head)) <==>
            forall l :: l in ToRead(cfg, s, c, head) ==> !Blocking(l) && !Rejected(s.ledger, l)
  {
    hide Reachable, Frozen, Run, LedgerOk, PhaseOk, WorldOk, OfContract, LogsIn, Blocking, Rejected;
    if forall l :: l in ToRead(cfg, s, c, head) ==> !Blocking(l) && !Rejected(s.ledger, l) {
      StandsStill(cfg, s);
      var acts, t, o := Scans(cfg, s, [], s, c, 1, head);
      assert Reaches(t, c, cfg.SafeHead(head));
    }
    if CanReachSmoothly(cfg, s, c, cfg.SafeHead(head)) {
      var acts, t :| && Run(cfg, s, acts) == Some(t) && Fail !in acts && t.phase.Idle?
                     && Reaches(t, c, cfg.SafeHead(head));
      LedgerInvariantHolds(cfg, s);
      ResumesAfterDeploy(cfg, s, c);
      SafeHeadIsFinal(cfg, s.peak, c, head);
      SmoothMeetsNoRejection(cfg, s, c, cfg.SafeHead(head), acts, t);
      SafeHeadReachedExactly(cfg, s, c, head);
    }
  }

  /** A pass over both contracts, of any chunk size and whatever heads it sees, can go through without a
      failed call if its logs are so. */
  lemma PassGoesThrough(cfg: Config, s: State, chunkSize: nat, policyHead: nat, claimHead: nat)
    returns (acts: seq<Action>, t: State)
    requires s.phase.Idle? && chunkSize >= 1 && policyHead <= s.peak && claimHead <= s.peak
    requires forall l :: l in ToRead(cfg, s, InsurancePolicy, policyHead) + ToRead(cfg, s, ClaimRegistry, claimHead) ==>
                           !Blocking(l) && !Rejected(s.ledger, l)
    ensures Run(cfg, s, acts) == Some(t) && Fail !in acts && t.phase.Idle?
    ensures t.checkpoints ==
            ScannedTo(cfg, ScannedTo(cfg, s.checkpoints, InsurancePolicy, policyHead), ClaimRegistry, claimHead)
  {
    hide Blocking, Rejected, OfContract, LogsIn, Run;
    StandsStill(cfg, s);
    var o;
    acts, t, o := Scans(cfg, s, [], s, InsurancePolicy, chunkSize, policyHead);
    LedgerKeeps(s.ledger, t.ledger, ToRead(cfg, s, ClaimRegistry, claimHead));
    acts, t, o := Scans(cfg, s, acts, t, ClaimRegistry, chunkSize, claimHead);
  }
}
