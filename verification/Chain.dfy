/** The chain as the indexer sees it: blocks of logs, some of which a contract's ABI recognises. */
module Chain {

  datatype Contract = InsurancePolicy | ClaimRegistry

  datatype Event =
    | ClaimSubmitted(claimId: nat, policyId: nat, claimant: string, merkleRoot: string, amount: nat, timestamp: nat)
    | ClaimStatusChanged(claimId: nat, status: nat)
    | ClaimPayout(claimId: nat, to: string, amount: nat, token: string)
    | PolicyRegistered(policyId: nat, holder: string, validFrom: nat, validUntil: nat, coverageAmount: nat)
    | PolicyRevoked(policyId: nat)
  {
    /** The contract whose ABI declares this event. */
    function Emitter(): Contract {
      if PolicyRegistered? || PolicyRevoked? then InsurancePolicy else ClaimRegistry
    }
  }

  /** What parsing a log gives: an exception, no matching event, or one of the known events. */
  datatype Decoded = Throws | NoMatch | Known(event: Event)

  /** The columns of the UNIQUE constraint on onchain_events. */
  datatype Key = Key(txHash: string, index: nat)

  datatype Log = Log(contract: Contract, block: nat, key: Key, decoded: Decoded)

  type Block = seq<Log>
  type Blocks = seq<Block>

  function BlockAt(chain: Blocks, b: nat): Block {
    if b < |chain| then chain[b] else []
  }

  /** All logs of the blocks `from <= b < end`, in block and log order. */
  function LogsIn(chain: Blocks, from: nat, end: nat): seq<Log> {
    if end <= from then [] else LogsIn(chain, from, end - 1) + BlockAt(chain, end - 1)
  }

  /** The logs of one contract: what an address filter keeps. */
  function OfContract(logs: seq<Log>, c: Contract): seq<Log> {
    if logs == [] then [] else
    var kept, last := OfContract(logs[..|logs| - 1], c), logs[|logs| - 1];
    if last.contract == c then kept + [last] else kept
  }

  /** The logs that decode to a known event. */
  function Recognised(logs: seq<Log>): seq<Log> {
    if logs == [] then [] else
    var kept, last := Recognised(logs[..|logs| - 1]), logs[|logs| - 1];
    if last.decoded.Known? then kept + [last] else kept
  }

  /** What a complete scan of one contract over `from <= b < end` ought to record. */
  function Expected(chain: Blocks, c: Contract, from: nat, end: nat): seq<Log> {
    Recognised(OfContract(LogsIn(chain, from, end), c))
  }

  predicate DistinctKeys(logs: seq<Log>) {
    forall i, j :: 0 <= i < j < |logs| ==> logs[i].key != logs[j].key
  }

  predicate BlockNumbersFit(chain: Blocks) {
    forall b :: 0 <= b < |chain| ==> forall l :: l in chain[b] ==> l.block == b
  }

  predicate DecodedByOwnAbi(logs: seq<Log>) {
    forall l :: l in logs ==> l.decoded.Known? ==> l.decoded.event.Emitter() == l.contract
  }

  /** What every chain guarantees: logs carry their block's number, (transaction, log index) names
      one log, and each contract's logs are decoded with its own ABI. */
  predicate WellFormed(chain: Blocks) {
    && BlockNumbersFit(chain)
    && DistinctKeys(LogsIn(chain, 0, |chain|))
    && DecodedByOwnAbi(LogsIn(chain, 0, |chain|))
  }

  // ----- concatenation

  lemma {:induction false} LogsInSplit(chain: Blocks, a: nat, b: nat, c: nat)
    requires a <= b <= c
    ensures LogsIn(chain, a, c) == LogsIn(chain, a, b) + LogsIn(chain, b, c)
  {
    if b < c {
      LogsInSplit(chain, a, b, c - 1);
    }
  }

  lemma OfContractSnoc(logs: seq<Log>, l: Log, c: Contract)
    ensures OfContract(logs + [l], c) == if l.contract == c then OfContract(logs, c) + [l] else OfContract(logs, c)
  {
    assert (logs + [l])[..|logs|] == logs;
  }

  lemma RecognisedSnoc(logs: seq<Log>, l: Log)
    ensures Recognised(logs + [l]) == if l.decoded.Known? then Recognised(logs) + [l] else Recognised(logs)
  {
    assert (logs + [l])[..|logs|] == logs;
  }

  lemma {:induction false} OfContractConcat(x: seq<Log>, y: seq<Log>, c: Contract)
    ensures OfContract(x + y, c) == OfContract(x, c) + OfContract(y, c)
  {
    if y == [] {
      assert x + y == x;
    } else {
      hide OfContract;
      var init, l := y[..|y| - 1], y[|y| - 1];
      assert y == init + [l] && x + y == x + init + [l];
      OfContractConcat(x, init, c);
      OfContractSnoc(x + init, l, c);
      OfContractSnoc(init, l, c);
    }
  }

  lemma {:induction false} RecognisedConcat(x: seq<Log>, y: seq<Log>)
    ensures Recognised(x + y) == Recognised(x) + Recognised(y)
  {
    if y == [] {
      assert x + y == x;
    } else {
      hide Recognised;
      var init, l := y[..|y| - 1], y[|y| - 1];
      assert y == init + [l] && x + y == x + init + [l];
      RecognisedConcat(x, init);
      RecognisedSnoc(x + init, l);
      RecognisedSnoc(init, l);
    }
  }

  lemma ExpectedSplit(chain: Blocks, c: Contract, from: nat, mid: nat, end: nat)
    requires from <= mid <= end
    ensures Expected(chain, c, from, end) == Expected(chain, c, from, mid) + Expected(chain, c, mid, end)
  {
    LogsInSplit(chain, from, mid, end);
    OfContractConcat(LogsIn(chain, from, mid), LogsIn(chain, mid, end), c);
    RecognisedConcat(OfContract(LogsIn(chain, from, mid), c), OfContract(LogsIn(chain, mid, end), c));
  }

  lemma NothingExpected(chain: Blocks, c: Contract, from: nat, end: nat)
    requires end <= from
    ensures Expected(chain, c, from, end) == []
  {
  }

  // ----- a change above `end` is not seen below it

  lemma {:induction false} LogsInAgree(chain: Blocks, other: Blocks, from: nat, end: nat)
    requires forall b: nat :: b < end ==> BlockAt(chain, b) == BlockAt(other, b)
    ensures LogsIn(chain, from, end) == LogsIn(other, from, end)
  {
    if from < end {
      LogsInAgree(chain, other, from, end - 1);
    }
  }

  lemma {:induction false} LogsInPastHead(chain: Blocks, from: nat, end: nat)
    requires |chain| <= end
    ensures LogsIn(chain, from, end) == LogsIn(chain, from, if from <= |chain| then |chain| else from)
  {
    if from < end && |chain| < end {
      LogsInPastHead(chain, from, end - 1);
    }
  }

  // ----- membership and keys

  lemma {:induction false} OfContractMembers(logs: seq<Log>, c: Contract)
    ensures forall l :: l in OfContract(logs, c) <==> l in logs && l.contract == c
  {
    if logs != [] {
      OfContractMembers(logs[..|logs| - 1], c);
      assert logs == logs[..|logs| - 1] + [logs[|logs| - 1]];
    }
  }

  lemma {:induction false} RecognisedMembers(logs: seq<Log>)
    ensures forall l :: l in Recognised(logs) <==> l in logs && l.decoded.Known?
  {
    if logs != [] {
      RecognisedMembers(logs[..|logs| - 1]);
      assert logs == logs[..|logs| - 1] + [logs[|logs| - 1]];
    }
  }

  lemma {:induction false} LogsInBlocks(chain: Blocks, from: nat, end: nat)
    requires BlockNumbersFit(chain)
    ensures forall l :: l in LogsIn(chain, from, end) ==> from <= l.block < end
  {
    if from < end {
      LogsInBlocks(chain, from, end - 1);
    }
  }

  lemma {:induction false} OfContractKeepsKeysDistinct(logs: seq<Log>, c: Contract)
    requires DistinctKeys(logs)
    ensures DistinctKeys(OfContract(logs, c))
  {
    if logs != [] {
      OfContractKeepsKeysDistinct(logs[..|logs| - 1], c);
      OfContractMembers(logs[..|logs| - 1], c);
    }
  }

  lemma {:induction false} RecognisedKeepsKeysDistinct(logs: seq<Log>)
    requires DistinctKeys(logs)
    ensures DistinctKeys(Recognised(logs))
  {
    if logs != [] {
      RecognisedKeepsKeysDistinct(logs[..|logs| - 1]);
      RecognisedMembers(logs[..|logs| - 1]);
    }
  }

  /** Only known logs of `c` that some block of the range holds are expected, and no key twice. */
  lemma ExpectedDistinct(chain: Blocks, c: Contract, from: nat, end: nat)
    requires WellFormed(chain) && end <= |chain|
    ensures DistinctKeys(Expected(chain, c, from, end))
    ensures forall l :: l in Expected(chain, c, from, end) ==>
                          l in LogsIn(chain, 0, |chain|) && l.contract == c && l.decoded.Known?
  {
    if from <= end {
      var part := LogsIn(chain, from, end);
      PartDistinct(chain, from, end);
      OfContractMembers(part, c);
      RecognisedMembers(OfContract(part, c));
      OfContractKeepsKeysDistinct(part, c);
      RecognisedKeepsKeysDistinct(OfContract(part, c));
    }
  }

  lemma PartDistinct(chain: Blocks, from: nat, end: nat)
    requires DistinctKeys(LogsIn(chain, 0, |chain|)) && from <= end <= |chain|
    ensures DistinctKeys(LogsIn(chain, from, end))
    ensures forall l :: l in LogsIn(chain, from, end) ==> l in LogsIn(chain, 0, |chain|)
  {
    hide LogsIn, DistinctKeys;
    LogsInSplit(chain, 0, from, |chain|);
    LogsInSplit(chain, from, end, |chain|);
    SubsequenceDistinct(LogsIn(chain, 0, from), LogsIn(chain, from, end), LogsIn(chain, end, |chain|));
  }

  lemma SubsequenceDistinct(before: seq<Log>, part: seq<Log>, after: seq<Log>)
    requires DistinctKeys(before + (part + after))
    ensures DistinctKeys(part)
    ensures forall l :: l in part ==> l in before + (part + after)
  {
    var all := before + (part + after);
    assert forall i :: 0 <= i < |part| ==> part[i] == all[|before| + i];
  }
}
