/** Ethereum signatures from a key that AWS KMS keeps. KMS's two answers, a DER public key and a DER
    signature, are parameters, and either call may fail. */
module KmsSigner {
  import opened Wrappers
  import opened ByteStrings
  import opened DerUtils
  import opened DerRoundTrip
  import opened Secp256k1
  import Text

  // ----- hexadecimal

  type Nibble = d: int | 0 <= d < 16

  /** The number a string of hexadecimal digits denotes. */
  function HexValue(digits: seq<Nibble>): nat {
    if digits == [] then 0 else 16 * HexValue(digits[..|digits| - 1]) + digits[|digits| - 1]
  }

  lemma HexSnoc(digits: seq<Nibble>, d: Nibble)
    ensures HexValue(digits + [d]) == 16 * HexValue(digits) + d
  {
    assert (digits + [d])[..|digits|] == digits;
  }

  /** `toString(16)`. */
  function ToHex(n: nat): (digits: seq<Nibble>)
    ensures HexValue(digits) == n
  {
    if n < 16 then [n] else
    HexSnoc(ToHex(n / 16), n % 16);
    ToHex(n / 16) + [n % 16]
  }

  function Power16(k: nat): (p: nat)
    ensures p >= 1
  {
    if k == 0 then 1 else 16 * Power16(k - 1)
  }

  lemma {:induction false} ToHexLength(n: nat, k: nat)
    requires k >= 1 && n < Power16(k)
    ensures |ToHex(n)| <= k
  {
    if n >= 16 {
      ToHexLength(n / 16, k - 1);
    }
  }

  function PadStart(digits: seq<Nibble>, k: nat): (r: seq<Nibble>)
    ensures |r| == if |digits| < k then k else |digits|
    ensures HexValue(r) == HexValue(digits)
    decreases k - |digits|
  {
    if |digits| >= k then digits else
    LeadingZeroDigit(digits);
    PadStart([0] + digits, k)
  }

  lemma {:induction false} LeadingZeroDigit(digits: seq<Nibble>)
    ensures HexValue([0] + digits) == HexValue(digits)
  {
    if digits == [] {
      assert [0] + digits == [] + [0];
      HexSnoc([], 0);
    } else {
      var init, d := digits[..|digits| - 1], digits[|digits| - 1];
      assert digits == init + [d] && [0] + digits == [0] + init + [d];
      LeadingZeroDigit(init);
      HexSnoc([0] + init, d);
      HexSnoc(init, d);
    }
  }

  /** A buffer's `toString('hex')`: two digits a byte. */
  function HexOfBytes(b: Bytes): (digits: seq<Nibble>)
    ensures |digits| == 2 * |b| && HexValue(digits) == Value(b)
  {
    if b == [] then [] else
    var rest, last := HexOfBytes(b[..|b| - 1]), b[|b| - 1];
    HexSnoc(rest, last / 16);
    HexSnoc(rest + [last / 16], last % 16);
    rest + [last / 16] + [last % 16]
  }

  // ----- signatures

  /** `r` and `s` as 64 digits each, and the recovery id behind v = 27 + id. */
  datatype Signature = Signature(rHex: seq<Nibble>, sHex: seq<Nibble>, id: nat)

  /** ethers' `Signature.from`: 64 digits each, and a low s. */
  function SignatureFrom(rHex: seq<Nibble>, sHex: seq<Nibble>, id: nat): (sig: Result<Signature>)
    ensures sig.Success? <==> |rHex| == 64 == |sHex| && 2 * HexValue(sHex) <= N
    ensures sig.Success? ==> sig.value.rHex == rHex && sig.value.sHex == sHex && sig.value.id == id
  {
    if |rHex| != 64 || |sHex| != 64 then Failure("invalid length") else
    if HexValue(sHex) > HALF_N then Failure("non-canonical s") else Success(Signature(rHex, sHex, id))
  }

  /** ethers' `recoverAddress`, which throws where nothing is recovered. */
  function RecoverAddress(curve: Curve, digest: Bytes, sig: Signature): Result<string> {
    match curve.RecoveredAddress(Value(digest), HexValue(sig.rHex), HexValue(sig.sHex), sig.id)
    case None => Failure("invalid signature")
    case Some(a) => Success(a)
  }

  /** EIP-2: of s and N - s, the one that is not above half the order. */
  function LowS(s: nat): (low: int)
    ensures 2 * s <= N ==> low == s
    ensures 2 * s > N ==> low == N - s
    ensures s <= N ==> 0 <= 2 * low <= N
  {
    if s > HALF_N then N - s else s
  }

  predicate SameAddress(a: string, b: string) {
    Text.ToLower(a) == Text.ToLower(b)
  }

  predicate RecoversAt(curve: Curve, z: nat, r: nat, s: int, id: nat, expected: string) {
    var recovered := curve.RecoveredAddress(z, r, s, id);
    recovered.Some? && SameAddress(recovered.value, expected)
  }

  predicate RecoversAtSomeId(curve: Curve, z: nat, r: nat, s: int, expected: string) {
    RecoversAt(curve, z, r, s, 0, expected) || RecoversAt(curve, z, r, s, 1, expected)
  }

  /** The low s recovers, at one of the ids, what s recovers: at the same id, or at the other one if s was
      replaced. */
  lemma LowSRecoversTheSame(curve: Curve, z: nat, r: nat, s: nat, id: nat)
    requires s <= N && id <= 1
    ensures curve.RecoveredKey(z, r, LowS(s), if s > HALF_N then 1 - id else id) == curve.RecoveredKey(z, r, s, id)
  {
    hide Curve.RecoveredKey;
    if s > HALF_N {
      NegatedSSwapsIds(curve, z, r, s, 1 - id);
    }
  }

  lemma LowSRecoversSomewhere(curve: Curve, z: nat, r: nat, s: nat, expected: string)
    ensures RecoversAtSomeId(curve, z, r, LowS(s), expected) <==> RecoversAtSomeId(curve, z, r, s, expected)
    ensures s > N ==> !RecoversAtSomeId(curve, z, r, s, expected)
  {
    if s <= N {
      hide LowS, Curve.RecoveredKey, SameAddress;
      LowSRecoversTheSame(curve, z, r, s, 0);
      LowSRecoversTheSame(curve, z, r, s, 1);
    }
  }

  lemma {:induction false} Power16Sum(a: nat, b: nat)
    ensures Power16(a + b) == Power16(a) * Power16(b)
  {
    if b > 0 {
      Power16Sum(a, b - 1);
      assert Power16(a) * Power16(b) == 16 * (Power16(a) * Power16(b - 1));
    }
  }

  lemma OrderFits()
    ensures N < Power16(64)
  {
    assert Power16(4) == 0x1_0000;
    hide Power16;
    Power16Sum(4, 4);
    Power16Sum(8, 8);
    Power16Sum(16, 16);
    Power16Sum(32, 32);
    assert Power16(8) == 0x1_0000_0000;
    assert Power16(16) == 0x1_0000_0000_0000_0000;
    assert Power16(32) == 0x1_0000_0000_0000_0000_0000_0000_0000_0000;
    assert Power16(64) == 0x1_0000_0000_0000_0000_0000_0000_0000_0000_0000_0000_0000_0000_0000_0000_0000_0000;
  }

  /** The low-s step of `_signDigest`, up to the digits handed to ethers. */
  method LowSHex(sRaw: Bytes) returns (r: Result<seq<Nibble>>)
    ensures r.Success? <==> Value(sRaw) <= N
    ensures r.Success? ==> |r.value| == 64 && HexValue(r.value) == LowS(Value(sRaw)) <= HALF_N
    ensures r.Success? ==> 2 * HexValue(r.value) <= N
    ensures r.Success? ==> HexValue(r.value) == Value(sRaw) || HexValue(r.value) == N - Value(sRaw)
  {
    hide Power16;
    var s: int := HexValue(HexOfBytes(sRaw));
    if s > HALF_N {
      s := N - s;
    }
    if s < 0 {
      return Failure("invalid BytesLike value"); // the digits would start with a minus sign
    }
    OrderFits();
    ToHexLength(s, 64);
    r := Success(PadStart(ToHex(s), 64));
  }

  function AddressOf(curve: Curve, keyResponse: Result<Bytes>): Result<string> {
    var der :- keyResponse;
    var rawPoint :- PublicKeyFromKmsDer(der);
    Success(curve.address(rawPoint))
  }

  /** The address a signer goes by: the cached one, or else that of KMS's answer. */
  function ExpectedAddress(curve: Curve, cached: Option<string>, keyResponse: Result<Bytes>): Result<string> {
    match cached
    case Some(a) => Success(a)
    case None => AddressOf(curve, keyResponse)
  }

  /** What the cache holds after an address was asked for. */
  function AsCache(r: Result<string>): Option<string> {
    match r case Success(a) => Some(a) case Failure(_) => None
  }

  /** What signing takes: a 32-byte digest, answers of KMS that parse, and an (r, s) that recovers, as it
      came, to this signer's address at one of the ids, while the first id tried does not throw. */
  predicate Signable(curve: Curve, cached: Option<string>, digest: Bytes,
                     signResponse: Result<Bytes>, keyResponse: Result<Bytes>)
  {
    && |digest| == 32
    && signResponse.Success? && SignatureFromKmsDer(signResponse.value).Success?
    && ExpectedAddress(curve, cached, keyResponse).Success?
    && var raw := SignatureFromKmsDer(signResponse.value).value;
       var z, r, s := Value(digest), Value(raw.r), Value(raw.s);
       && RecoversAtSomeId(curve, z, r, s, ExpectedAddress(curve, cached, keyResponse).value)
       && curve.RecoveredKey(z, r, LowS(s), 0).Some?
  }

  class Signer {
    const curve: Curve
    var cachedAddress: Option<string>

    constructor (curve: Curve)
      ensures this.curve == curve && cachedAddress == None
    {
      this.curve := curve;
      cachedAddress := None;
    }

    /** The address of the key in KMS's answer; asked for once and kept. */
    method GetAddress(keyResponse: Result<Bytes>) returns (r: Result<string>)
      modifies this
      ensures r == ExpectedAddress(curve, old(cachedAddress), keyResponse)
      ensures cachedAddress == AsCache(r)
      ensures old(cachedAddress).Some? ==> r == Success(old(cachedAddress).value)
      ensures old(cachedAddress).None? ==>
                && (r.Success? <==> keyResponse.Success? && PublicKeyFromKmsDer(keyResponse.value).Success?)
                && (r.Success? ==> r.value == curve.address(PublicKeyFromKmsDer(keyResponse.value).value))
    {
      if cachedAddress.Some? {
        return Success(cachedAddress.value);
      }
      var der :- keyResponse;
      var rawPoint :- PublicKeyFromKmsDer(der);
      cachedAddress := Some(curve.address(rawPoint));
      r := Success(cachedAddress.value);
    }

    /** The least id at which the signature recovers to the expected address, letter case aside. An id that
        recovers nothing throws, and the next one is then not tried. */
    method FindRecoveryId(digest: Bytes, rHex: seq<Nibble>, sHex: seq<Nibble>, expected: string)
      returns (r: Result<nat>)
      ensures r.Success? <==>
                && SignatureFrom(rHex, sHex, 0).Success?
                && RecoversAtSomeId(curve, Value(digest), HexValue(rHex), HexValue(sHex), expected)
                && curve.RecoveredKey(Value(digest), HexValue(rHex), HexValue(sHex), 0).Some?
      ensures r.Success? ==>
                && r.value <= 1 && SignatureFrom(rHex, sHex, r.value).Success?
                && RecoversAt(curve, Value(digest), HexValue(rHex), HexValue(sHex), r.value, expected)
                && forall id: nat :: id < r.value ==>
                     !RecoversAt(curve, Value(digest), HexValue(rHex), HexValue(sHex), id, expected)
    {
      hide HexValue, Value, Curve.RecoveredKey;
      for recoveryId := 0 to 2
        invariant recoveryId > 0 ==>
                    && SignatureFrom(rHex, sHex, 0).Success?
                    && curve.RecoveredKey(Value(digest), HexValue(rHex), HexValue(sHex), 0).Some?
        invariant forall id: nat :: id < recoveryId ==>
                    !RecoversAt(curve, Value(digest), HexValue(rHex), HexValue(sHex), id, expected)
      {
        var candidate :- SignatureFrom(rHex, sHex, recoveryId);
        var recovered :- RecoverAddress(curve, digest, candidate);
        if Text.ToLower(recovered) == Text.ToLower(expected) {
          return Success(recoveryId);
        }
      }
      r := Failure("Could not determine a valid recovery id");
    }

    /** Signs a digest: KMS's answer made low-s, with the id that recovers this signer's address. */
    method SignDigest(digest: Bytes, signResponse: Result<Bytes>, keyResponse: Result<Bytes>)
      returns (r: Result<Signature>)
      modifies this
      ensures r.Success? <==> Signable(curve, old(cachedAddress), digest, signResponse, keyResponse)
      ensures r.Success? ==>
                var raw, expected := SignatureFromKmsDer(signResponse.value).value,
                                     ExpectedAddress(curve, old(cachedAddress), keyResponse).value;
                && HexValue(r.value.rHex) == Value(raw.r)
                && HexValue(r.value.sHex) == LowS(Value(raw.s)) <= HALF_N
                && 2 * HexValue(r.value.sHex) <= N
                && (HexValue(r.value.sHex) == Value(raw.s) || HexValue(r.value.sHex) == N - Value(raw.s))
                && r.value.id <= 1
                && RecoversAt(curve, Value(digest), HexValue(r.value.rHex), HexValue(r.value.sHex),
                              r.value.id, expected)
      ensures var asked := |digest| == 32 && signResponse.Success? && SignatureFromKmsDer(signResponse.value).Success?;
              cachedAddress == if asked then AsCache(ExpectedAddress(curve, old(cachedAddress), keyResponse))
                               else old(cachedAddress)
    {
      hide SignatureFromKmsDer, PublicKeyFromKmsDer, HexValue, Value, LowS;
      hide RecoversAtSomeId, RecoversAt, Curve.RecoveredKey;
      if |digest| != 32 {
        return Failure("_signDigest expects a 32-byte digest");
      }
      var der :- signResponse;
      var raw :- SignatureFromKmsDer(der);
      ghost var expected := ExpectedAddress(curve, cachedAddress, keyResponse);
      if expected.Success? {
        LowSRecoversSomewhere(curve, Value(digest), Value(raw.r), Value(raw.s), expected.value);
      }
      var sDigits := LowSHex(raw.s);
      var rHex := HexOfBytes(raw.r);
      var address :- GetAddress(keyResponse);
      var sHex :- sDigits; // with a minus sign among the digits, no signature comes about
      PaddedTo32(der);
      var recoveryId :- FindRecoveryId(digest, rHex, sHex, address);
      r := SignatureFrom(rHex, sHex, recoveryId);
    }
  }

  lemma PaddedTo32(der: Bytes)
    requires SignatureFromKmsDer(der).Success?
    ensures |SignatureFromKmsDer(der).value.r| == 32 == |SignatureFromKmsDer(der).value.s|
  {
    hide TlvHeader, Subarray, Value;
  }

  // ----- end to end

  /** Another key has the address of key `d`. */
  ghost predicate SharesAddress(curve: Curve, d: nat) {
    exists e: nat :: 1 <= e < N && e != d && SameAddress(curve.address(curve.point(e)), curve.address(curve.point(d)))
  }

  /** For a true signature by key `d` whose nonce has an abscissa below N, recovery finds the address of `d`;
      and the first id tried throws exactly if r d + 2 z vanishes modulo N and `d` is at the second. */
  lemma TrueSignatureRecovers(curve: Curve, d: nat, z: nat, x: nat, k: int, r: nat, s: nat)
    requires curve.Valid() && IsSignature(curve, d, z, x, k, r, s) && x < N
    ensures RecoversAtSomeId(curve, z, r, s, curve.address(curve.point(d)))
    ensures curve.RecoveredKey(z, r, LowS(s), 0) == None <==>
            (r * d + 2 * z) % N == 0 && curve.RecoveredKey(z, r, LowS(s), 1) == Some(d)
  {
    hide Curve.Valid, Curve.RecoveredKey;
    SignatureRecoversExactly(curve, d, z, x, k, r, s);
    var id := if curve.RecoveredKey(z, r, s, 0) == Some(d) then 0 else 1;
    LowSRecoversTheSame(curve, z, r, s, id);
    var low := if s > HALF_N then 1 - id else id;
    OtherIdRecovers(curve, d, z, r, LowS(s), low);
  }

  /** The low one of a number and its negative modulo N. */
  lemma LowOfTwo(s: nat)
    requires 1 <= s < N
    ensures 1 <= LowS(s) <= HALF_N && LowS(LowS(s)) == LowS(s)
  {
  }

  /** Digest `z`, nonce logarithm -`e` and s with s e = z: the key that makes this a signature. */
  lemma OppositeKey(curve: Curve, x: nat, z: nat, s: nat) returns (d: nat)
    requires curve.Valid() && 1 <= x < N && curve.evenLog(x).Some? && 1 <= z < N && 1 <= s < N
    requires (s * curve.evenLog(x).value - z) % N == 0
    ensures IsSignature(curve, d, z, x, -curve.evenLog(x).value, x, s)
    ensures curve.RecoveredKey(z, x, s, 0) == None
  {
    hide Curve.Valid, Curve.KeyAt;
    var e := curve.evenLog(x).value;
    d := curve.KeyAt(z, x, s, 1);
    KeysAreResidues(curve, z, x, s);
    OppositeEquations(curve, x, z, s, d);
  }

  lemma OppositeEquations(curve: Curve, x: nat, z: nat, s: nat, d: nat)
    requires curve.Valid() && 1 <= x < N && curve.evenLog(x).Some? && 1 <= z < N && d < N
    requires (s * curve.evenLog(x).value - z) % N == 0 && d == curve.KeyAt(z, x, s, 1)
    ensures curve.KeyAt(z, x, s, 0) == 0 && d != 0 && x < P
    ensures (s * -curve.evenLog(x).value - z - x * d) % N == 0
  {
    hide Curve.Valid, Curve.KeyAt;
    var e := curve.evenLog(x).value;
    assert s * (-e) == -(s * e);
    assert x * 0 == 0;
    KeyEquation(curve, z, x, s, 0, 0);
    KeyEquation(curve, z, x, s, 1, d);
    DoubleVanishes(s * e, z);
    assert x < P;
  }

  lemma KeysAreResidues(curve: Curve, z: nat, r: nat, s: nat)
    requires curve.evenLog(r).Some?
    ensures curve.KeyAt(z, r, s, 0) < N && curve.KeyAt(z, r, s, 1) < N
  {
  }

  /** N is odd: what is congruent to z and to -z is 0. */
  lemma DoubleVanishes(a: int, z: nat)
    requires 1 <= z < N && (a - z) % N == 0
    ensures (-a - z) % N != 0
  {
    if (-a - z) % N == 0 {
      ZeroSum(a - z, -a - z, N);
      Opposite(-2 * z, N);
      OddOrder(z);
    }
  }

  lemma OddOrder(z: nat)
    requires 1 <= z < N
    ensures (2 * z) % N != 0
  {
  }

  /** For every point whose abscissa is below N, and every digest or its negative, there are a key, a nonce and a
      true signature for which the first id tried recovers the point at infinity, and so throws. */
  lemma InfinitySignatureExists(curve: Curve, x: nat, z0: nat) returns (z: nat, d: nat, k: int, s: nat)
    requires curve.Valid() && 1 <= x < N && curve.evenLog(x).Some? && 1 <= z0 < N
    ensures z == z0 || z == N - z0
    ensures IsSignature(curve, d, z, x, k, x, s) && curve.RecoveredKey(z, x, LowS(s), 0) == None
  {
    hide Curve.RecoveredKey, IsSignature;
    var e := curve.evenLog(x).value;
    var s0 := SolvesForS(curve, e, z0);
    LowOfTwo(s0);
    s, z := LowS(s0), if s0 > HALF_N then N - z0 else z0;
    assert (s * e - z) % N == 0 by {
      if s0 > HALF_N {
        assert (N - s0) * e == N * e - s0 * e;
        MultipleIsZero(N, e - 1);
        assert N * (e - 1) == N * e - N;
        ZeroSum(N * (e - 1), s0 * e - z0, N);
      }
    }
    d := OppositeKey(curve, x, z, s);
    k := -e;
  }

  /** If the nonce's abscissa is N or more, recovery finds the address of `d` only if another key shares it. */
  lemma WrappedSignatureRecovers(curve: Curve, d: nat, z: nat, x: nat, k: int, r: nat, s: nat)
    requires curve.Valid() && IsSignature(curve, d, z, x, k, r, s) && x >= N
    requires RecoversAtSomeId(curve, z, r, s, curve.address(curve.point(d)))
    ensures SharesAddress(curve, d)
  {
    hide Curve.Valid, Curve.RecoveredKey, SameAddress;
    SignatureRecoversExactly(curve, d, z, x, k, r, s);
  }

  /** The cache is empty, or holds the address of key `d`. */
  predicate CacheFits(curve: Curve, cached: Option<string>, d: nat) {
    cached.Some? ==> cached.value == curve.address(curve.point(d))
  }

  /** A true signature by key `d`, in whatever DER encodings of the key and of (r, s) KMS sends, whether or not
      the key's address is cached: with a nonce whose abscissa is below N, it can be signed with unless
      r d + 2 z vanishes modulo N and `d` is at the second id tried. With another nonce it cannot, unless keys
      share an address. */
  lemma TrueSignatureIsSignable(curve: Curve, cached: Option<string>, d: nat, digest: Bytes,
                                x: nat, k: int, r: nat, s: nat,
                                outerEnc: Bytes, outerLength: nat, algEnc: Bytes, algId: Bytes, bitsEnc: Bytes)
    requires curve.Valid() && |digest| == 32 && IsSignature(curve, d, Value(digest), x, k, r, s)
    requires |curve.point(d)| == 64 && CacheFits(curve, cached, d)
    requires IsLength(outerEnc, outerLength) && IsLength(algEnc, |algId|) && IsLength(bitsEnc, 66) && |algId| < TWO_31
    ensures r < Power256(32) && s < Power256(32)
    ensures var signResponse := Success(DerSignature(r, s));
            var keyResponse := Success(Spki(outerEnc, algEnc, algId, bitsEnc, curve.point(d)));
            var signable := Signable(curve, cached, digest, signResponse, keyResponse);
            && ExpectedAddress(curve, cached, keyResponse) == Success(curve.address(curve.point(d)))
            && SignatureFromKmsDer(signResponse.value).Success?
            && (var raw := SignatureFromKmsDer(signResponse.value).value; Value(raw.r) == r && Value(raw.s) == s)
            && (x < N ==> (signable <==> !OppositeAtSecond(curve, d, Value(digest), r, s)))
            && (x >= N && signable ==> SharesAddress(curve, d))
  {
    hide SignatureFromKmsDer, PublicKeyFromKmsDer, DerSignature, Spki, IsLength, Power256, RecoversAtSomeId, LowS;
    hide SharesAddress, Curve.Valid, Curve.RecoveredKey, Value;
    OrderFitsBytes();
    SignatureRoundTrip(r, s);
    SpkiRoundTrip(outerEnc, outerLength, algEnc, algId, bitsEnc, curve.point(d));
    if x < N {
      TrueSignatureRecovers(curve, d, Value(digest), x, k, r, s);
    } else if RecoversAtSomeId(curve, Value(digest), r, s, curve.address(curve.point(d))) {
      WrappedSignatureRecovers(curve, d, Value(digest), x, k, r, s);
    }
  }

  /** The first id tried meets the point at infinity, and the key is at the second. */
  predicate OppositeAtSecond(curve: Curve, d: nat, z: nat, r: nat, s: nat) {
    (r * d + 2 * z) % N == 0 && curve.RecoveredKey(z, r, LowS(s), 1) == Some(d)
  }

  lemma OrderFitsBytes()
    ensures N < Power256(32)
  {
    OrderFits();
    hide Power16;
    PowersAgree(32);
  }

  lemma {:induction false} PowersAgree(n: nat)
    ensures Power256(n) == Power16(2 * n)
  {
    if n > 0 {
      PowersAgree(n - 1);
    }
  }

  /** A signer asked to sign a digest with a key KMS truly holds gets, from a nonce whose abscissa is below
      N, a low-s signature that recovers to the key's address, unless r d + 2 z vanishes modulo N and the key is
      at the second id. The same holds for every later signature, and the key's address is then cached. */
  method SignWithTrueKey(signer: Signer, d: nat, digest: Bytes, x: nat, k: int, r: nat, s: nat,
                         outerEnc: Bytes, outerLength: nat, algEnc: Bytes, algId: Bytes, bitsEnc: Bytes)
    returns (sig: Result<Signature>)
    requires signer.curve.Valid() && CacheFits(signer.curve, signer.cachedAddress, d)
    requires |digest| == 32 && IsSignature(signer.curve, d, Value(digest), x, k, r, s)
    requires |signer.curve.point(d)| == 64
    requires IsLength(outerEnc, outerLength) && IsLength(algEnc, |algId|) && IsLength(bitsEnc, 66) && |algId| < TWO_31
    modifies signer
    ensures signer.cachedAddress == Some(signer.curve.address(signer.curve.point(d)))
    ensures x < N ==> (sig.Success? <==> !OppositeAtSecond(signer.curve, d, Value(digest), r, s))
    ensures x >= N && sig.Success? ==> SharesAddress(signer.curve, d)
    ensures sig.Success? ==>
              && HexValue(sig.value.rHex) == r && 1 <= HexValue(sig.value.sHex) && 2 * HexValue(sig.value.sHex) <= N
              && (HexValue(sig.value.sHex) == s || HexValue(sig.value.sHex) == N - s)
              && RecoversAt(signer.curve, Value(digest), HexValue(sig.value.rHex), HexValue(sig.value.sHex),
                            sig.value.id, signer.curve.address(signer.curve.point(d)))
  {
    TrueSignatureIsSignable(signer.curve, signer.cachedAddress, d, digest, x, k, r, s,
                            outerEnc, outerLength, algEnc, algId, bitsEnc);
    hide SignatureFromKmsDer, PublicKeyFromKmsDer, DerSignature, Spki, Power256, HexValue, Value, RecoversAtSomeId;
    hide RecoversAt, SharesAddress, Curve.Valid, Curve.RecoveredKey, Signable, OppositeAtSecond;
    sig := signer.SignDigest(digest, Success(DerSignature(r, s)),
                             Success(Spki(outerEnc, algEnc, algId, bitsEnc, signer.curve.point(d))));
  }
}
