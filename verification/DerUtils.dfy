/** Reading the two DER structures that AWS KMS returns. */
module DerUtils {
  import opened Wrappers
  import opened ByteStrings

  // ----- JavaScript's buffers and 32-bit integers

  /** A read outside the buffer counts as 0. */
  function ByteAt(buf: Bytes, i: int): Byte {
    if 0 <= i < |buf| then buf[i] else 0
  }

  /** Where `subarray` puts a bound: negative ones count from the end. */
  function Bound(length: nat, i: int): (r: nat)
    ensures r <= length
  {
    if i < 0 then (if length + i < 0 then 0 else length + i) else if i < length then i else length
  }

  function Subarray(buf: Bytes, start: int, end: int): Bytes {
    var from, to := Bound(|buf|, start), Bound(|buf|, end);
    if from <= to then buf[from..to] else []
  }

  const TWO_32 := 0x1_0000_0000
  const TWO_31 := 0x8000_0000

  /** The conversion that the bitwise operators apply: modulo 2^32, the upper half negative. */
  function ToInt32(x: int): int {
    if x % TWO_32 < TWO_31 then x % TWO_32 else x % TWO_32 - TWO_32
  }

  /** Bit by bit disjunction. */
  function BitOr(x: nat, y: nat): nat
    decreases x + y
  {
    if x == 0 && y == 0 then 0 else
    (if x % 2 == 1 || y % 2 == 1 then 1 else 0) + 2 * BitOr(x / 2, y / 2)
  }

  function ShiftLeft8(x: int): int {
    ToInt32(ToInt32(x) * 256)
  }

  function Or32(x: int, y: int): int {
    ToInt32(BitOr(x % TWO_32, y % TWO_32))
  }

  lemma {:induction false} BitOrZero(x: nat)
    ensures BitOr(x, 0) == x
  {
    if x > 0 {
      BitOrZero(x / 2);
    }
  }

  lemma BitOrHalf(x: nat, y: nat)
    ensures BitOr(2 * x, y) == y % 2 + 2 * BitOr(x, y / 2)
  {
  }

  /** A byte put into eight free bits is added. */
  lemma BitOrByte(x: nat, b: Byte)
    ensures BitOr(256 * x, b) == 256 * x + b
  {
    hide BitOr;
    BitOrHalf(128 * x, b);
    BitOrHalf(64 * x, b / 2);
    BitOrHalf(32 * x, b / 4);
    BitOrHalf(16 * x, b / 8);
    BitOrHalf(8 * x, b / 16);
    BitOrHalf(4 * x, b / 32);
    BitOrHalf(2 * x, b / 64);
    BitOrHalf(x, b / 128);
    BitOrZero(x);
    assert b / 2 / 2 == b / 4 && b / 4 / 2 == b / 8 && b / 8 / 2 == b / 16 && b / 16 / 2 == b / 32;
    assert b / 32 / 2 == b / 64 && b / 64 / 2 == b / 128 && b / 128 / 2 == 0;
  }

  lemma Residue32(x: int, k: int, r: int)
    requires x == TWO_32 * k + r && 0 <= r < TWO_32
    ensures x % TWO_32 == r
  {
  }

  lemma Residue24(x: int, k: int, r: int)
    requires x == 0x100_0000 * k + r && 0 <= r < 0x100_0000
    ensures x % 0x100_0000 == r
  {
  }

  lemma Int32Residues(x: int)
    ensures ToInt32(x) % TWO_32 == x % TWO_32
    ensures ToInt32(x) % 0x100_0000 == x % 0x100_0000
  {
    var k, r := x / TWO_32, x % TWO_32;
    var a, b := r / 0x100_0000, r % 0x100_0000;
    Residue24(x, 256 * k + a, b);
    if r < TWO_31 {
      Residue24(ToInt32(x), a, b);
    } else {
      Residue32(ToInt32(x), -1, r);
      Residue24(ToInt32(x), a - 256, b);
    }
  }

  lemma Times256(x: int)
    ensures (x * 256) % TWO_32 == 256 * (x % 0x100_0000)
  {
    var q, u := x / 0x100_0000, x % 0x100_0000;
    assert x * 256 == TWO_32 * q + 256 * u;
  }

  /** Shifting by eight drops the top byte of a 32-bit integer. */
  lemma ShiftDrops(x: int)
    ensures ShiftLeft8(x) % TWO_32 == 256 * (x % 0x100_0000)
  {
    Int32Residues(ToInt32(x) * 256);
    Times256(ToInt32(x));
    Int32Residues(x);
    hide ToInt32;
  }

  lemma OneDigitOn(v: nat, b: Byte)
    ensures (256 * v + b) % TWO_32 == 256 * (v % 0x100_0000) + b
  {
    var q, u := v / 0x100_0000, v % 0x100_0000;
    Residue32(256 * v + b, q, 256 * u + b);
  }

  lemma SameResidueSameInt32(x: int, y: int)
    requires x % TWO_32 == y % TWO_32
    ensures ToInt32(x) == ToInt32(y)
  {
  }

  /** One round of the shift-and-or loop is one digit of base-256 accumulation, modulo 2^32. */
  lemma ShiftOrAccumulates(v: nat, b: Byte)
    ensures Or32(ShiftLeft8(ToInt32(v)), b) == ToInt32(256 * v + b)
  {
    hide BitOr, ShiftLeft8, ToInt32;
    var u := v % 0x100_0000;
    ShiftDrops(ToInt32(v));
    Int32Residues(v);
    BitOrByte(u, b);
    OneDigitOn(v, b);
    Residue32(b, 0, b);
    Residue32(256 * u + b, 0, 256 * u + b);
    SameResidueSameInt32(256 * u + b, 256 * v + b);
  }

  // ----- headers

  datatype Header = Header(tag: Byte, length: int, valueOffset: int)

  /** The `n` bytes from `start` on. */
  function Window(buf: Bytes, start: int, n: nat): (w: Bytes)
    ensures |w| == n
  {
    if n == 0 then [] else Window(buf, start, n - 1) + [ByteAt(buf, start + n - 1)]
  }

  /** What the header at `offset` says: the short form is the byte itself, the long form the value of as
      many bytes as it names, cut to a signed 32-bit integer. */
  function TlvHeader(buf: Bytes, offset: int): Header {
    var lengthByte := ByteAt(buf, offset + 1);
    if lengthByte < 128 then Header(ByteAt(buf, offset), lengthByte, offset + 2) else
    var n := lengthByte - 128;
    Header(ByteAt(buf, offset), ToInt32(Value(Window(buf, offset + 2, n))), offset + 2 + n)
  }

  method ReadTlvHeader(buf: Bytes, offset: int) returns (h: Header)
    ensures h == TlvHeader(buf, offset)
  {
    var tag, lengthByte := ByteAt(buf, offset), ByteAt(buf, offset + 1);
    if lengthByte < 128 {
      return Header(tag, lengthByte, offset + 2);
    }
    var numLengthBytes := lengthByte - 128;
    var length := 0;
    for i := 0 to numLengthBytes
      invariant length == ToInt32(Value(Window(buf, offset + 2, i)))
    {
      var b := ByteAt(buf, offset + 2 + i);
      ValueSnoc(Window(buf, offset + 2, i), b);
      ShiftOrAccumulates(Value(Window(buf, offset + 2, i)), b);
      length := Or32(ShiftLeft8(length), b);
    }
    h := Header(tag, length, offset + 2 + numLengthBytes);
  }

  // ----- integers

  /** The 32 bytes for an INTEGER's content, if it fits once a sign byte is dropped. */
  function Padded32(raw: Bytes): Result<Bytes> {
    var bytes := if |raw| == 33 && raw[0] == 0 then raw[1..] else raw;
    if |bytes| > 32 then Failure("Integer value too long after stripping sign byte")
    else Success(Zeros(32 - |bytes|) + bytes)
  }

  method ToPadded32(rawBytes: Bytes) returns (r: Result<Bytes>)
    ensures r == Padded32(rawBytes)
  {
    var bytes := rawBytes;
    if |bytes| == 33 && bytes[0] == 0 {
      bytes := bytes[1..];
    }
    if |bytes| > 32 {
      return Failure("Integer value too long after stripping sign byte");
    }
    var padded, shift := new Byte[32](_ => 0), 32 - |bytes|;
    for i := 0 to |bytes|
      invariant forall k :: 0 <= k < 32 ==> padded[k] == if shift <= k < shift + i then bytes[k - shift] else 0
    {
      padded[shift + i] := bytes[i];
    }
    assert padded[..] == Zeros(shift) + bytes;
    r := Success(padded[..]);
  }

  /** What is accepted keeps its value, in exactly 32 bytes; rejected is what is longer than 32 bytes,
      or longer than 33, or 33 with a sign byte that is not 0. */
  lemma PaddedKeepsValue(raw: Bytes)
    ensures Padded32(raw).Success? <==> |raw| <= 32 || (|raw| == 33 && raw[0] == 0)
    ensures Padded32(raw).Success? ==> |Padded32(raw).value| == 32 && Value(Padded32(raw).value) == Value(raw)
  {
    if |raw| <= 32 {
      LeadingZeros(32 - |raw|, raw);
    } else if |raw| == 33 && raw[0] == 0 {
      assert raw == Zeros(1) + raw[1..];
      LeadingZeros(1, raw[1..]);
      assert Zeros(0) + raw[1..] == raw[1..];
    }
  }

  // ----- the two structures

  /** The 64-byte point of a SubjectPublicKeyInfo. */
  function PublicKeyFromKmsDer(der: Bytes): Result<Bytes> {
    var outer := TlvHeader(der, 0);
    if outer.tag != 0x30 then Failure("Expected outer SEQUENCE (0x30) in KMS public key DER") else
    var algId := TlvHeader(der, outer.valueOffset);
    var bitString := TlvHeader(der, algId.valueOffset + algId.length);
    if bitString.tag != 0x03 then Failure("Expected BIT STRING (0x03) for the public key point") else
    var pointStart := bitString.valueOffset + 2;
    var rawPoint := Subarray(der, pointStart, pointStart + 64);
    if |rawPoint| != 64 then Failure("Expected a 64-byte uncompressed EC point") else Success(rawPoint)
  }

  datatype RawSignature = RawSignature(r: Bytes, s: Bytes)

  /** The two integers of an ECDSA-Sig-Value, each as 32 bytes. */
  function SignatureFromKmsDer(der: Bytes): Result<RawSignature> {
    var outer := TlvHeader(der, 0);
    if outer.tag != 0x30 then Failure("Expected outer SEQUENCE (0x30) in KMS signature DER") else
    var rHeader := TlvHeader(der, outer.valueOffset);
    var rRaw := Subarray(der, rHeader.valueOffset, rHeader.valueOffset + rHeader.length);
    var sHeader := TlvHeader(der, rHeader.valueOffset + rHeader.length);
    var sRaw := Subarray(der, sHeader.valueOffset, sHeader.valueOffset + sHeader.length);
    var r :- Padded32(rRaw);
    var s :- Padded32(sRaw);
    Success(RawSignature(r, s))
  }
}
