/** Byte strings: their big-endian value and their lexicographic order. */
module ByteStrings {

  type Byte = b: int | 0 <= b < 256
  type Bytes = seq<Byte>

  /** A 32-byte digest. */
  type Digest = d: Bytes | |d| == 32 witness seq(32, _ => 0)

  function Zeros(n: nat): (z: Bytes)
    ensures |z| == n
  {
    seq(n, _ => 0)
  }

  /** The number a byte string denotes, most significant byte first. */
  function Value(b: Bytes): nat {
    if b == [] then 0 else 256 * Value(b[..|b| - 1]) + b[|b| - 1]
  }

  function Power256(n: nat): (p: nat)
    ensures p >= 1
  {
    if n == 0 then 1 else 256 * Power256(n - 1)
  }

  lemma ValueSnoc(b: Bytes, last: Byte)
    ensures Value(b + [last]) == 256 * Value(b) + last
  {
    assert (b + [last])[..|b|] == b;
  }

  lemma {:induction false} ValueBound(b: Bytes)
    ensures Value(b) < Power256(|b|)
  {
    if b != [] {
      ValueBound(b[..|b| - 1]);
    }
  }

  /** Leading zero bytes do not change the value. */
  lemma {:induction false} LeadingZeros(n: nat, b: Bytes)
    ensures Value(Zeros(n) + b) == Value(b)
  {
    if b == [] {
      assert Zeros(n) + b == Zeros(n);
      ZerosAreZero(n);
    } else {
      var init, last := b[..|b| - 1], b[|b| - 1];
      assert b == init + [last] && Zeros(n) + b == Zeros(n) + init + [last];
      LeadingZeros(n, init);
      ValueSnoc(Zeros(n) + init, last);
      ValueSnoc(init, last);
    }
  }

  lemma {:induction false} ZerosAreZero(n: nat)
    ensures Value(Zeros(n)) == 0
  {
    if n > 0 {
      ZerosAreZero(n - 1);
      assert Zeros(n) == Zeros(n - 1) + [0];
      ValueSnoc(Zeros(n - 1), 0);
    }
  }

  /** Byte strings of one length with one value are the same. */
  lemma {:induction false} ValueTellsBytes(a: Bytes, b: Bytes)
    requires |a| == |b| && Value(a) == Value(b)
    ensures a == b
  {
    if a != [] {
      var n := |a| - 1;
      ValueTellsBytes(a[..n], b[..n]);
      assert a == a[..n] + [a[n]] && b == b[..n] + [b[n]];
    }
  }

  /** The shortest byte string with value `v`; empty for 0. */
  function Minimal(v: nat): (b: Bytes)
    ensures Value(b) == v
    ensures b != [] ==> b[0] != 0
  {
    if v == 0 then [] else
    var rest := Minimal(v / 256);
    ValueSnoc(rest, v % 256);
    rest + [v % 256]
  }

  lemma {:induction false} MinimalLength(v: nat, n: nat)
    requires v < Power256(n)
    ensures |Minimal(v)| <= n
  {
    if v > 0 {
      MinimalLength(v / 256, n - 1);
    }
  }
}
