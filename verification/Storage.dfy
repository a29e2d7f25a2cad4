/** What the database driver and the columns of the indexer's tables accept. */
module Storage {
  import opened Chain
  import opened Projection
  import Text

  /** A value inside the event data. ethers 6 decodes every integer as a bigint. */
  datatype JsValue = Str(text: string) | BigInt(n: nat)

  /** The object each handler records with the raw event. */
  function EventData(e: Event): map<string, JsValue> {
    match e
    case ClaimSubmitted(claimId, policyId, claimant, merkleRoot, amount, timestamp) =>
      map["claimId" := Str(Text.Decimal(claimId)), "policyId" := Str(Text.Decimal(policyId)),
          "claimant" := Str(claimant), "merkleRoot" := Str(merkleRoot),
          "amount" := Str(Text.Decimal(amount)), "timestamp" := Str(Text.Decimal(timestamp))]
    case ClaimStatusChanged(claimId, status) =>
      map["claimId" := Str(Text.Decimal(claimId)), "status" := BigInt(status), "statusName" := Str(StatusName(status))]
    case ClaimPayout(claimId, to, amount, token) =>
      map["claimId" := Str(Text.Decimal(claimId)), "to" := Str(to),
          "amount" := Str(Text.Decimal(amount)), "token" := Str(token)]
    case PolicyRegistered(policyId, holder, validFrom, validUntil, coverageAmount) =>
      map["policyId" := Str(Text.Decimal(policyId)), "holder" := Str(holder),
          "validFrom" := Str(Text.Decimal(validFrom)), "validUntil" := Str(Text.Decimal(validUntil)),
          "coverageAmount" := Str(Text.Decimal(coverageAmount))]
    case PolicyRevoked(policyId) =>
      map["policyId" := Str(Text.Decimal(policyId))]
  }

  /** The driver writes an object as JSON, which has no bigints: `JSON.stringify` throws on one. */
  predicate Serialisable(data: map<string, JsValue>) {
    forall name :: name in data ==> data[name].Str?
  }

  /** The raw-event insert can go out. */
  predicate Recordable(l: Log) {
    l.decoded.Known? && Serialisable(EventData(l.decoded.event))
  }

  /** What a BIGINT column or parameter holds. */
  const BIGINT_END := 0x8000_0000_0000_0000

  /** The first second of the year 294277, where PostgreSQL's timestamps end. */
  const TIMESTAMP_END := 9_224_318_016_000

  /** The handler's statement on its table finds its parameters in range. */
  predicate Writable(l: Log) {
    l.decoded.Known? &&
    match l.decoded.event
    case ClaimSubmitted(claimId, policyId, _, _, _, _) => claimId < BIGINT_END && policyId < BIGINT_END
    case ClaimStatusChanged(claimId, _) => claimId < BIGINT_END
    case ClaimPayout(claimId, _, _, _) => claimId < BIGINT_END
    case PolicyRegistered(policyId, _, validFrom, validUntil, _) =>
      policyId < BIGINT_END && validFrom < TIMESTAMP_END && validUntil < TIMESTAMP_END
    case PolicyRevoked(policyId) => policyId < BIGINT_END
  }

  /** How many days of the Gregorian calendar precede the year. */
  function DaysBefore(year: nat): int
    requires year >= 1
  {
    var years := year - 1;
    365 * years + years / 4 - years / 100 + years / 400
  }

  /** The two ends in the terms of PostgreSQL's documentation: an eight-byte integer, and a timestamp up to the last
      second of the year 294276, in seconds from 1970. */
  lemma RangesEnd()
    ensures BIGINT_END == 9_223_372_036_854_775_808
    ensures TIMESTAMP_END == 24 * 60 * 60 * (DaysBefore(294_277) - DaysBefore(1970))
  {
  }

  /** A statement is accepted exactly if the numbers of claim and policy are eight-byte integers, and the times of
      a registration are timestamps. */
  lemma WritableExactly(l: Log)
    requires l.decoded.Known?
    ensures var e := l.decoded.event;
            Writable(l) <==>
            && Subject(e) < 9_223_372_036_854_775_808
            && (e.ClaimSubmitted? ==> e.policyId < 9_223_372_036_854_775_808)
            && (e.PolicyRegistered? ==> e.validFrom < 9_224_318_016_000 && e.validUntil < 9_224_318_016_000)
  {
  }

  /** The data name the claim or policy the event is about, as a decimal string. */
  lemma DataNameTheSubject(e: Event)
    ensures var name := if e.PolicyRegistered? || e.PolicyRevoked? then "policyId" else "claimId";
            name in EventData(e) && EventData(e)[name] == Str(Text.Decimal(Subject(e)))
  {
  }

  /** Of the known events exactly the status changes cannot be recorded: their status stays a bigint. */
  lemma StatusChangesAreUnrecordable(l: Log)
    requires l.decoded.Known?
    ensures Recordable(l) <==> !l.decoded.event.ClaimStatusChanged?
  {
    if l.decoded.event.ClaimStatusChanged? {
      assert "status" in EventData(l.decoded.event);
    }
  }
}
