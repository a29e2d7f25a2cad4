/** Printing DER and reading it back. The printers here cover every definite-form length encoding of
    ITU-T X.690 section 8.1.3, of which DER uses the shortest, and the INTEGER encoding of section 8.3. */
module DerRoundTrip {
  import opened Wrappers
  import opened ByteStrings
  import opened DerUtils

  // ----- length octets

  /** `enc` is a definite-form encoding of `length`: one byte, or a count and that many bytes. */
  predicate IsLength(enc: Bytes, length: nat) {
    || (|enc| == 1 && enc[0] == length < 128)
    || (2 <= |enc| <= 127 && enc[0] == 128 + |enc| - 1 && Value(enc[1..]) == length)
  }

  /** The shortest encoding, which is what DER prescribes. */
  function LengthOctets(length: nat): (enc: Bytes)
    requires length < TWO_31
    ensures IsLength(enc, length)
  {
    if length < 128 then [length] else
    assert Power256(4) == TWO_32 by { PowerOfFour(); }
    MinimalLength(length, 4);
    [128 + |Minimal(length)|] + Minimal(length)
  }

  lemma PowerOfFour()
    ensures Power256(4) == TWO_32
  {
    assert Power256(2) == 0x1_0000;
    assert Power256(3) == 0x100_0000;
  }

  lemma {:induction false} WindowIsSlice(buf: Bytes, start: nat, n: nat)
    requires start + n <= |buf|
    ensures Window(buf, start, n) == buf[start..start + n]
  {
    if n > 0 {
      WindowIsSlice(buf, start, n - 1);
    }
  }

  /** For every definite-form encoding, at any place of any buffer, the header's tag and value offset are
      right, and its length is right exactly when it is below 2^31. */
  lemma HeaderReadsLength(pre: Bytes, tag: Byte, enc: Bytes, rest: Bytes, length: nat)
    requires IsLength(enc, length)
    ensures var h := TlvHeader(pre + [tag] + enc + rest, |pre|);
            && h.tag == tag && h.valueOffset == |pre| + 1 + |enc|
            && h.length == ToInt32(length)
            && (h.length == length <==> length < TWO_31)
  {
    hide Value, Window;
    var buf := pre + [tag] + enc + rest;
    assert buf[|pre|] == tag && buf[|pre| + 1] == enc[0];
    if |enc| >= 2 {
      WindowIsSlice(buf, |pre| + 2, |enc| - 1);
      assert buf[|pre| + 2..|pre| + 1 + |enc|] == enc[1..];
    }
    assert ToInt32(length) == length <==> length < TWO_31;
  }

  /** A length octet of 0x80, BER's indefinite form, reads as the length 0; so does 0x80 plus a count of zeros. */
  lemma NoLengthReadsZero(pre: Bytes, tag: Byte, count: nat, rest: Bytes)
    requires count < 128
    ensures var h := TlvHeader(pre + [tag] + ([128 + count] + Zeros(count)) + rest, |pre|);
            h.tag == tag && h.valueOffset == |pre| + 2 + count && h.length == 0
  {
    var enc: Bytes := [128 + count] + Zeros(count);
    var buf := pre + [tag] + enc + rest;
    assert buf[|pre|] == tag && buf[|pre| + 1] == enc[0];
    WindowIsSlice(buf, |pre| + 2, count);
    assert buf[|pre| + 2..|pre| + 2 + count] == Zeros(count);
    ZerosAreZero(count);
  }

  /** Bounds count from the start, or if negative from the end, and are cut to the buffer at either side. */
  lemma SubarrayCounts(buf: Bytes, from: nat, to: nat, more: nat)
    requires from <= to <= |buf|
    ensures Subarray(buf, from, to) == buf[from..to]
    ensures Subarray(buf, from, |buf| + more) == buf[from..]
    ensures from < |buf| ==> Subarray(buf, from - |buf|, |buf|) == buf[from..]
    ensures to < |buf| ==> Subarray(buf, from, to - |buf|) == buf[from..to]
    ensures more > 0 ==> Subarray(buf, -|buf| - more, to) == buf[..to] && Subarray(buf, from, -|buf| - more) == []
    ensures from < to ==> Subarray(buf, to, from) == []
  {
  }

  lemma SubarrayInside(pre: Bytes, x: Bytes, post: Bytes)
    ensures Subarray(pre + x + post, |pre|, |pre| + |x|) == x
  {
  }

  /** Tag, length and content. */
  function Tlv(tag: Byte, enc: Bytes, content: Bytes): Bytes {
    [tag] + enc + content
  }

  // ----- SubjectPublicKeyInfo

  /** RFC 5280 section 4.1: a SEQUENCE of an AlgorithmIdentifier and a BIT STRING, whose content is a
      count of unused bits, the mark of an uncompressed point and the point (RFC 5480 section 2.2). */
  function Spki(outerEnc: Bytes, algEnc: Bytes, algId: Bytes, bitsEnc: Bytes, point: Bytes): Bytes {
    Tlv(0x30, outerEnc, Tlv(0x30, algEnc, algId) + Tlv(0x03, bitsEnc, [0x00, 0x04] + point))
  }

  /** The same structure with any tags, and anything after the header of the bit string. */
  function SpkiLike(outerTag: Byte, outerEnc: Bytes, algTag: Byte, algEnc: Bytes, algId: Bytes,
                    bitsTag: Byte, bitsEnc: Bytes, content: Bytes): Bytes
  {
    Tlv(outerTag, outerEnc, Tlv(algTag, algEnc, algId) + Tlv(bitsTag, bitsEnc, content))
  }

  /** Reading such a structure succeeds exactly if the outer tag is a SEQUENCE's, the last one is a BIT STRING's,
      and at least 66 bytes follow; it gives bytes 2 to 65 of these, whatever the length octets claim. */
  lemma SpkiIsRead(outerTag: Byte, outerEnc: Bytes, outerLength: nat, algTag: Byte, algEnc: Bytes, algId: Bytes,
                   bitsTag: Byte, bitsEnc: Bytes, bitsLength: nat, content: Bytes)
    requires |algId| < TWO_31
    requires IsLength(outerEnc, outerLength) && IsLength(algEnc, |algId|) && IsLength(bitsEnc, bitsLength)
    ensures var der := SpkiLike(outerTag, outerEnc, algTag, algEnc, algId, bitsTag, bitsEnc, content);
            var r := PublicKeyFromKmsDer(der);
            && (r.Success? <==> outerTag == 0x30 && bitsTag == 0x03 && |content| >= 66)
            && (r.Success? ==> r.value == content[2..66])
  {
    hide TlvHeader, Subarray, IsLength, SpkiLike, Tlv;
    var der := SpkiLike(outerTag, outerEnc, algTag, algEnc, algId, bitsTag, bitsEnc, content);
    var head, alg, bits, pre := SpkiLayout(outerTag, outerEnc, algTag, algEnc, algId, bitsTag, bitsEnc, content);
    HeaderReadsLength([], outerTag, outerEnc, alg + bits, outerLength);
    HeaderReadsLength(head, algTag, algEnc, algId + bits, |algId|);
    HeaderReadsLength(head + alg, bitsTag, bitsEnc, content, bitsLength);
    SubarrayAfter(pre, content);
  }

  /** The 64 bytes after the first two of `content`, as far as there are any. */
  lemma SubarrayAfter(pre: Bytes, content: Bytes)
    ensures var r := Subarray(pre + content, |pre| + 2, |pre| + 66);
            if |content| >= 66 then r == content[2..66] else |r| < 64
  {
  }

  /** Reading a printed key gives back its point, whatever the algorithm identifier and whichever length
      encodings are used. */
  lemma SpkiRoundTrip(outerEnc: Bytes, outerLength: nat, algEnc: Bytes, algId: Bytes, bitsEnc: Bytes, point: Bytes)
    requires |point| == 64 && |algId| < TWO_31
    requires IsLength(outerEnc, outerLength) && IsLength(algEnc, |algId|) && IsLength(bitsEnc, 66)
    ensures PublicKeyFromKmsDer(Spki(outerEnc, algEnc, algId, bitsEnc, point)) == Success(point)
  {
    hide PublicKeyFromKmsDer, IsLength, Tlv;
    var content := [0x00, 0x04] + point;
    SpkiIsRead(0x30, outerEnc, outerLength, 0x30, algEnc, algId, 0x03, bitsEnc, 66, content);
    assert content[2..66] == point;
  }

  /** The places of such a structure at which it is read. */
  lemma SpkiLayout(outerTag: Byte, outerEnc: Bytes, algTag: Byte, algEnc: Bytes, algId: Bytes,
                   bitsTag: Byte, bitsEnc: Bytes, content: Bytes)
    returns (head: Bytes, alg: Bytes, bits: Bytes, pre: Bytes)
    ensures |head| == 1 + |outerEnc| && |alg| == 1 + |algEnc| + |algId|
    ensures |pre| == |head| + |alg| + 1 + |bitsEnc|
    ensures var der := SpkiLike(outerTag, outerEnc, algTag, algEnc, algId, bitsTag, bitsEnc, content);
            && der == [] + [outerTag] + outerEnc + (alg + bits)
            && der == head + [algTag] + algEnc + (algId + bits)
            && der == (head + alg) + [bitsTag] + bitsEnc + content
            && der == pre + content
  {
    head, alg := [outerTag] + outerEnc, Tlv(algTag, algEnc, algId);
    bits := Tlv(bitsTag, bitsEnc, content);
    pre := (head + alg) + [bitsTag] + bitsEnc;
    assert SpkiLike(outerTag, outerEnc, algTag, algEnc, algId, bitsTag, bitsEnc, content) == head + (alg + bits);
    assert [] + [outerTag] + outerEnc == head;
    assert head + (alg + bits) == head + [algTag] + algEnc + (algId + bits);
    assert head + (alg + bits) == (head + alg) + bits;
    AppendThree(head + alg, [bitsTag], bitsEnc, content);
  }

  lemma AppendThree(x: Bytes, a: Bytes, b: Bytes, c: Bytes)
    ensures x + (a + b + c) == x + a + b + c
  {
  }

  // ----- ECDSA-Sig-Value

  /** RFC 3279 section 2.2.3: a SEQUENCE of two INTEGERs, given by their contents. */
  function SigValue(outerEnc: Bytes, rEnc: Bytes, r: Bytes, sEnc: Bytes, s: Bytes): Bytes {
    Tlv(0x30, outerEnc, Tlv(0x02, rEnc, r) + Tlv(0x02, sEnc, s))
  }

  /** The same structure with any tags. */
  function SigLike(outerTag: Byte, outerEnc: Bytes, rTag: Byte, rEnc: Bytes, r: Bytes,
                   sTag: Byte, sEnc: Bytes, s: Bytes): Bytes
  {
    Tlv(outerTag, outerEnc, Tlv(rTag, rEnc, r) + Tlv(sTag, sEnc, s))
  }

  /** Reading such a structure succeeds exactly if the outer tag is a SEQUENCE's and both contents can be padded,
      and gives both contents padded, whichever encodings and inner tags are used. */
  lemma SigIsRead(outerTag: Byte, outerEnc: Bytes, outerLength: nat,
                  rTag: Byte, rEnc: Bytes, r: Bytes, sTag: Byte, sEnc: Bytes, s: Bytes)
    requires IsLength(outerEnc, outerLength) && IsLength(rEnc, |r|) && IsLength(sEnc, |s|)
    requires |r| < TWO_31 && |s| < TWO_31
    ensures var sig := SignatureFromKmsDer(SigLike(outerTag, outerEnc, rTag, rEnc, r, sTag, sEnc, s));
            && (sig.Success? <==> outerTag == 0x30 && Padded32(r).Success? && Padded32(s).Success?)
            && (sig.Success? ==> sig.value.r == Padded32(r).value && sig.value.s == Padded32(s).value)
  {
    hide TlvHeader, Subarray, IsLength, Padded32;
    var der := SigLike(outerTag, outerEnc, rTag, rEnc, r, sTag, sEnc, s);
    var rTlv, sTlv := Tlv(rTag, rEnc, r), Tlv(sTag, sEnc, s);
    assert der == [] + [outerTag] + outerEnc + (rTlv + sTlv);
    HeaderReadsLength([], outerTag, outerEnc, rTlv + sTlv, outerLength);
    var head := [outerTag] + outerEnc;
    assert der == head + [rTag] + rEnc + (r + sTlv);
    HeaderReadsLength(head, rTag, rEnc, r + sTlv, |r|);
    var preR := head + [rTag] + rEnc;
    assert der == preR + r + sTlv;
    SubarrayInside(preR, r, sTlv);
    assert der == (head + rTlv) + [sTag] + sEnc + (s + []);
    HeaderReadsLength(head + rTlv, sTag, sEnc, s + [], |s|);
    var preS := head + rTlv + [sTag] + sEnc;
    assert der == preS + s + [];
    SubarrayInside(preS, s, []);
  }

  /** Reading a printed signature gives both contents to the padding, whichever encodings are used. */
  lemma SigValueIsRead(outerEnc: Bytes, outerLength: nat, rEnc: Bytes, r: Bytes, sEnc: Bytes, s: Bytes)
    requires IsLength(outerEnc, outerLength) && IsLength(rEnc, |r|) && IsLength(sEnc, |s|)
    requires |r| < TWO_31 && |s| < TWO_31
    requires Padded32(r).Success? && Padded32(s).Success?
    ensures SignatureFromKmsDer(SigValue(outerEnc, rEnc, r, sEnc, s)) ==
            Success(RawSignature(Padded32(r).value, Padded32(s).value))
  {
    hide SignatureFromKmsDer, IsLength, Padded32, Tlv;
    SigIsRead(0x30, outerEnc, outerLength, 0x02, rEnc, r, 0x02, sEnc, s);
  }

  /** The INTEGER content of a non-negative number: shortest, with a zero byte in front of a set top bit. */
  function IntegerContent(v: nat): (c: Bytes)
    ensures c != []
  {
    if v == 0 then [0] else if Minimal(v)[0] >= 128 then [0] + Minimal(v) else Minimal(v)
  }

  lemma IntegerContentFits(v: nat)
    requires v < Power256(32)
    ensures Value(IntegerContent(v)) == v && |IntegerContent(v)| <= 33
    ensures Padded32(IntegerContent(v)).Success? && Value(Padded32(IntegerContent(v)).value) == v
  {
    IntegerContentDenotes(v);
    hide IntegerContent, Padded32, Value, Power256;
    PaddedKeepsValue(IntegerContent(v));
  }

  lemma IntegerContentDenotes(v: nat)
    requires v < Power256(32)
    ensures Value(IntegerContent(v)) == v && |IntegerContent(v)| <= 33
    ensures |IntegerContent(v)| == 33 ==> IntegerContent(v)[0] == 0
  {
    MinimalLength(v, 32);
    hide Power256, Minimal, Value;
    LeadingZeros(1, Minimal(v));
    assert Zeros(1) + Minimal(v) == [0] + Minimal(v);
    if v == 0 {
      MinimalOfNought();
      assert [0] + Minimal(0) == [0];
    }
  }

  lemma MinimalOfNought()
    ensures Minimal(0) == []
  {
  }

  /** The DER encoding of a signature. */
  function DerSignature(r: nat, s: nat): Bytes
    requires r < Power256(32) && s < Power256(32)
  {
    IntegerContentFits(r);
    IntegerContentFits(s);
    var rContent, sContent := IntegerContent(r), IntegerContent(s);
    var body := Tlv(0x02, LengthOctets(|rContent|), rContent) + Tlv(0x02, LengthOctets(|sContent|), sContent);
    Tlv(0x30, LengthOctets(|body|), body)
  }

  /** Every pair of 256-bit numbers survives DER and back, as two 32-byte strings. */
  lemma SignatureRoundTrip(r: nat, s: nat)
    requires r < Power256(32) && s < Power256(32)
    ensures var parsed := SignatureFromKmsDer(DerSignature(r, s));
            && parsed.Success?
            && |parsed.value.r| == 32 && Value(parsed.value.r) == r
            && |parsed.value.s| == 32 && Value(parsed.value.s) == s
  {
    hide Value, SignatureFromKmsDer, LengthOctets, Padded32, IntegerContent, Power256;
    IntegerContentFits(r);
    IntegerContentFits(s);
    var rContent, sContent := IntegerContent(r), IntegerContent(s);
    PaddedKeepsValue(rContent);
    PaddedKeepsValue(sContent);
    var rEnc, sEnc := LengthOctets(|rContent|), LengthOctets(|sContent|);
    var body := Tlv(0x02, rEnc, rContent) + Tlv(0x02, sEnc, sContent);
    SigValueIsRead(LengthOctets(|body|), |body|, rEnc, rContent, sEnc, sContent);
    assert DerSignature(r, s) == SigValue(LengthOctets(|body|), rEnc, rContent, sEnc, sContent);
  }

  // ----- the fixture printer

  function DerLength(len: nat): Result<Bytes> {
    if len >= 0x80 then Failure("test helper only supports short-form DER lengths") else
    var octet: Byte := len;
    Success([octet])
  }

  function BuildDerSpki(rawPoint64: Bytes): Result<Bytes> {
    var algIdFiller := [0x06, 0x01, 0xaa, 0x06, 0x01, 0xbb];
    var algIdLength :- DerLength(|algIdFiller|);
    var algIdSeq := [0x30] + algIdLength + algIdFiller;
    var bitStringValue := [0x00, 0x04] + rawPoint64;
    var bitStringLength :- DerLength(|bitStringValue|);
    var bitString := [0x03] + bitStringLength + bitStringValue;
    var outerValue := algIdSeq + bitString;
    var outerLength :- DerLength(|outerValue|);
    Success([0x30] + outerLength + outerValue)
  }

  function FixtureContent(buf: Bytes): Bytes {
    if buf != [] && buf[0] >= 0x80 then [0x00] + buf else buf
  }

  function EncodeInteger(buf: Bytes): Result<Bytes> {
    var value := FixtureContent(buf);
    var length :- DerLength(|value|);
    Success([0x02] + length + value)
  }

  function BuildDerSignature(rBuf: Bytes, sBuf: Bytes): Result<Bytes> {
    var rEnc :- EncodeInteger(rBuf);
    var sEnc :- EncodeInteger(sBuf);
    var body := rEnc + sEnc;
    var length :- DerLength(|body|);
    Success([0x30] + length + body)
  }

  /** The fixture for a key reads back as the point it was made from. */
  lemma FixtureSpkiRoundTrip(point: Bytes)
    requires |point| == 64
    ensures BuildDerSpki(point).Success? && PublicKeyFromKmsDer(BuildDerSpki(point).value) == Success(point)
  {
    hide PublicKeyFromKmsDer, Value;
    var filler: Bytes := [0x06, 0x01, 0xaa, 0x06, 0x01, 0xbb];
    SpkiRoundTrip([76], 76, [6], filler, [66], point);
  }

  lemma FixtureContentFits(buf: Bytes)
    requires |buf| <= 32
    ensures Padded32(FixtureContent(buf)) == Success(Zeros(32 - |buf|) + buf)
  {
    if buf != [] && buf[0] >= 0x80 && |buf| < 32 {
      assert Zeros(32 - |buf| - 1) + ([0x00] + buf) == Zeros(32 - |buf|) + buf;
    }
  }

  /** The fixture for a signature reads back as its two byte strings, filled up with zeros on the left,
      so with their values. */
  lemma FixtureSignatureRoundTrip(rBuf: Bytes, sBuf: Bytes)
    requires |rBuf| <= 32 && |sBuf| <= 32
    ensures BuildDerSignature(rBuf, sBuf).Success?
    ensures SignatureFromKmsDer(BuildDerSignature(rBuf, sBuf).value) ==
            Success(RawSignature(Zeros(32 - |rBuf|) + rBuf, Zeros(32 - |sBuf|) + sBuf))
    ensures Value(Zeros(32 - |rBuf|) + rBuf) == Value(rBuf) && Value(Zeros(32 - |sBuf|) + sBuf) == Value(sBuf)
  {
    hide Value, SignatureFromKmsDer, Padded32;
    LeadingZeros(32 - |rBuf|, rBuf);
    LeadingZeros(32 - |sBuf|, sBuf);
    FixtureContentFits(rBuf);
    FixtureContentFits(sBuf);
    var r, s := FixtureContent(rBuf), FixtureContent(sBuf);
    var body := Tlv(0x02, [|r|], r) + Tlv(0x02, [|s|], s);
    SigValueIsRead([|body|], |body|, [|r|], r, [|s|], s);
    assert BuildDerSignature(rBuf, sBuf) == Success(SigValue([|body|], [|r|], r, [|s|], s));
  }
}
