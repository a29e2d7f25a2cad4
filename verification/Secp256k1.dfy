/** Public-key recovery on secp256k1, with points written as their discrete logarithms modulo the curve
    order (SEC 1 section 4.1.6). */
module Secp256k1 {
  import opened Wrappers
  import opened ByteStrings

  /** The order of the curve's group. */
  const N: nat := 0xFFFFFFFFFFFFFFFFFFFFFFFFFFFFFFFEBAAEDCE6AF48A03BBFD25E8CD0364141
  const HALF_N: nat := N / 2

  /** The order of the curve's field, to which abscissas belong; it is larger than N. */
  const P: nat := 0xFFFFFFFFFFFFFFFFFFFFFFFFFFFFFFFFFFFFFFFFFFFFFFFFFFFFFFFEFFFFFC2F

  /** Scalar multiplication in the group: `a` added up `n` times. */
  function Times(n: nat, a: int): int {
    if n == 0 then 0 else Times(n - 1, a) + a
  }

  lemma {:induction false} TimesIsProduct(n: nat, a: int)
    ensures Times(n, a) == n * a
  {
    if n > 0 {
      TimesIsProduct(n - 1, a);
      assert n * a == (n - 1) * a + a;
    }
  }

  /** What is not arithmetic modulo N: `evenLog(x)` is the logarithm of the even point with abscissa `x`,
      if there is one, `inverse(r)` that of `r` modulo N, `point` the 64 bytes of a logarithm's point,
      `address` keccak's. */
  datatype Curve = Curve(evenLog: nat -> Option<int>, inverse: nat -> nat,
                         point: nat -> Bytes, address: Bytes -> string)
  {
    /** Inverses are inverses, a point with an abscissa is not the one at infinity, and points with different
        abscissas are different, also up to sign. */
    ghost predicate Valid() {
      && (forall r: nat :: 1 <= r < N ==> (inverse(r) * r) % N == 1)
      && (forall x: nat :: evenLog(x).Some? ==> x < P && evenLog(x).value % N != 0)
      && (forall x: nat, y: nat :: x != y && evenLog(x).Some? && evenLog(y).Some? ==>
            (evenLog(x).value - evenLog(y).value) % N != 0 && (evenLog(x).value + evenLog(y).value) % N != 0)
    }

    /** The point R that recovery id 0 or 1 picks: the second is the negative of the first. */
    function NoncePoint(r: nat, id: nat): int
      requires evenLog(r).Some?
    {
      if id == 0 then evenLog(r).value else -evenLog(r).value
    }

    /** r^-1 (s R - z G). */
    function KeyAt(z: nat, r: nat, s: nat, id: nat): nat
      requires evenLog(r).Some?
    {
      Times(inverse(r), Times(s, NoncePoint(r, id)) - z) % N
    }

    /** The key recovered from a signature of digest `z`. There is none if r or s is out of range, no point
        has abscissa r, or the sum is the point at infinity. */
    function RecoveredKey(z: nat, r: nat, s: int, id: nat): (key: Option<nat>)
      ensures key.Some? ==> 1 <= key.value < N
    {
      if !(1 <= r < N && 1 <= s < N) || evenLog(r).None? || KeyAt(z, r, s, id) == 0 then None
      else Some(KeyAt(z, r, s, id))
    }

    function RecoveredAddress(z: nat, r: nat, s: int, id: nat): Option<string> {
      match RecoveredKey(z, r, s, id)
      case None => None
      case Some(key) => Some(address(point(key)))
    }
  }

  /** The order and the field in decimal; the order is odd, so of a number and its negative exactly one is low. */
  lemma OrderInDecimal()
    ensures N == 115792089237316195423570985008687907852837564279074904382605163141518161494337
    ensures P == 115792089237316195423570985008687907853269984665640564039457584007908834671663
    ensures 2 * HALF_N + 1 == N < P < 2 * N
  {
  }

  // ----- arithmetic modulo n

  lemma MultipleAtLeast(n: nat, x: int)
    ensures x >= 1 ==> n * x >= n
    ensures x <= -1 ==> n * x + n <= 0
  {
    assert n * x == n * (x - 1) + n == n * (x + 1) - n;
  }

  lemma DivisionIsUnique(a: int, n: nat, q: int, r: int)
    requires n > 0 && a == n * q + r && 0 <= r < n
    ensures a % n == r && a / n == q
  {
    var q', r' := a / n, a % n;
    assert a == n * q' + r';
    assert n * (q - q') == r' - r by {
      assert n * (q - q') == n * q - n * q';
    }
    MultipleAtLeast(n, q - q');
  }

  lemma MultipleIsZero(n: nat, q: int)
    requires n > 0
    ensures (n * q) % n == 0
  {
    DivisionIsUnique(n * q, n, q, 0);
  }

  lemma ZeroSum(a: int, b: int, n: nat)
    requires n > 0 && a % n == 0 && b % n == 0
    ensures (a + b) % n == 0 && (a - b) % n == 0
  {
    assert a + b == n * (a / n + b / n) by {
      assert n * (a / n + b / n) == n * (a / n) + n * (b / n);
    }
    assert a - b == n * (a / n - b / n) by {
      assert n * (a / n - b / n) == n * (a / n) - n * (b / n);
    }
    MultipleIsZero(n, a / n + b / n);
    MultipleIsZero(n, a / n - b / n);
  }

  lemma ZeroTimes(a: int, c: int, n: nat)
    requires n > 0 && a % n == 0
    ensures (c * a) % n == 0
  {
    var q := a / n;
    assert a == n * q;
    assert c * (n * q) == n * (c * q);
    MultipleIsZero(n, c * q);
  }

  lemma Opposite(a: int, n: nat)
    requires n > 0
    ensures a % n == 0 <==> (-a) % n == 0
  {
    if a % n == 0 {
      ZeroTimes(a, -1, n);
    }
    if (-a) % n == 0 {
      ZeroTimes(-a, -1, n);
    }
  }

  lemma Negated(a: int, b: int, n: nat)
    requires n > 0 && a == -b && a % n == 0
    ensures b % n == 0
  {
    Opposite(b, n);
  }

  /** `a` has residue `d` exactly if it differs from `d` by a multiple of `n`. */
  lemma ResidueIs(a: int, d: nat, n: nat)
    requires d < n
    ensures a % n == d <==> (a - d) % n == 0
  {
    var q, t := a / n, (a - d) / n;
    assert a == n * q + a % n;
    if a % n == d {
      assert a - d == n * q;
      MultipleIsZero(n, q);
    }
    if (a - d) % n == 0 {
      assert a == n * t + d;
      DivisionIsUnique(a, n, t, d);
    }
  }

  /** With `inv` the inverse of `r`, dividing by `r` and multiplying by `inv` agree. */
  lemma Cancel(inv: int, r: int, w: int, d: int, n: nat)
    requires n > 0 && (inv * r - 1) % n == 0
    ensures (inv * w - d) % n == 0 <==> (w - r * d) % n == 0
  {
    if (w - r * d) % n == 0 {
      TimesInverse(inv, r, w, d, n);
    }
    if (inv * w - d) % n == 0 {
      CancelInverse(inv, r, w, d, n);
    }
  }

  lemma CancelInverse(inv: int, r: int, w: int, d: int, n: nat)
    requires n > 0 && (inv * r - 1) % n == 0 && (inv * w - d) % n == 0
    ensures (w - r * d) % n == 0
  {
    assert r * inv == inv * r;
    Negated(inv * w - d, d - inv * w, n);
    TimesInverse(r, inv, d, w, n);
    Negated(r * d - w, w - r * d, n);
  }

  lemma TimesInverse(inv: int, r: int, w: int, d: int, n: nat)
    requires n > 0 && (inv * r - 1) % n == 0 && (w - r * d) % n == 0
    ensures (inv * w - d) % n == 0
  {
    Multiplied(inv, r, w, d);
    SumOfProducts(inv, w - r * d, d, inv * r - 1, inv * w - d, n);
  }

  lemma SumOfProducts(x: int, a: int, y: int, b: int, c: int, n: nat)
    requires n > 0 && a % n == 0 && b % n == 0 && c == x * a + y * b
    ensures c % n == 0
  {
    ZeroTimes(a, x, n);
    ZeroTimes(b, y, n);
    ZeroSum(x * a, y * b, n);
  }

  lemma Multiplied(inv: int, r: int, w: int, d: int)
    ensures inv * (w - r * d) + d * (inv * r - 1) == inv * w - d
  {
    assert inv * (w - r * d) == inv * w - inv * (r * d);
    assert inv * (r * d) == d * (inv * r);
    assert d * (inv * r - 1) == d * (inv * r) - d;
  }

  lemma InverseIsInverse(curve: Curve, r: nat)
    requires curve.Valid() && 1 <= r < N
    ensures (curve.inverse(r) * r - 1) % N == 0
  {
    ResidueIs(curve.inverse(r) * r, 1, N);
  }

  // ----- recovery

  lemma KeyIs(curve: Curve, z: nat, r: nat, s: nat, id: nat)
    requires curve.evenLog(r).Some?
    ensures curve.KeyAt(z, r, s, id) == (curve.inverse(r) * (s * curve.NoncePoint(r, id) - z)) % N
  {
    hide Times, Curve.NoncePoint;
    TimesIsProduct(s, curve.NoncePoint(r, id));
    TimesIsProduct(curve.inverse(r), s * curve.NoncePoint(r, id) - z);
  }

  /** The recovered key is the one key for which the ECDSA equation s R = z + r d holds. */
  lemma KeyEquation(curve: Curve, z: nat, r: nat, s: nat, id: nat, d: nat)
    requires curve.Valid() && 1 <= r < N && curve.evenLog(r).Some? && d < N
    ensures curve.KeyAt(z, r, s, id) == d <==> (s * curve.NoncePoint(r, id) - z - r * d) % N == 0
  {
    hide Curve.KeyAt;
    var w := s * curve.NoncePoint(r, id) - z;
    KeyIs(curve, z, r, s, id);
    InverseIsInverse(curve, r);
    ResidueIs(curve.inverse(r) * w, d, N);
    Cancel(curve.inverse(r), r, w, d, N);
  }

  /** Recovery gives `d` exactly if all numbers are in range, a point has abscissa r, and the ECDSA equation holds
      with the even one of its two points at id 0 and the other one at id 1. */
  lemma RecoversExactly(curve: Curve, z: nat, r: nat, s: nat, id: nat, d: nat)
    requires curve.Valid() && id <= 1
    ensures curve.RecoveredKey(z, r, s, id) == Some(d) <==>
            && 1 <= r < N && 1 <= s < N && 1 <= d < N && curve.evenLog(r).Some?
            && var e := curve.evenLog(r).value;
               (s * (if id == 0 then e else -e) - z - r * d) % N == 0
  {
    hide Curve.Valid, Curve.KeyAt;
    if 1 <= r < N && d < N && curve.evenLog(r).Some? {
      KeyEquation(curve, z, r, s, id, d);
    }
  }

  /** Negating s modulo N swaps what the two recovery ids recover. */
  lemma NegatedSSwapsIds(curve: Curve, z: nat, r: nat, s: nat, id: nat)
    requires s <= N && id <= 1
    ensures curve.RecoveredKey(z, r, N - s, id) == curve.RecoveredKey(z, r, s, 1 - id)
  {
    hide Curve.KeyAt;
    if curve.evenLog(r).Some? {
      var inv, p := curve.inverse(r), curve.NoncePoint(r, id);
      assert curve.NoncePoint(r, 1 - id) == -p;
      KeyIs(curve, z, r, N - s, id);
      KeyIs(curve, z, r, s, 1 - id);
      NegatedProduct(inv, s, p, z, N);
      SameResidue(inv * ((N - s) * p - z), inv * (s * (-p) - z), inv * p, N);
    }
  }

  lemma SameResidue(a: int, b: int, t: int, n: nat)
    requires n > 0 && a == b + n * t
    ensures a % n == b % n
  {
    MultipleIsZero(n, t);
    ZeroSum(n * t, b - b % n, n) by {
      ResidueIs(b, b % n, n);
    }
    ResidueIs(a, b % n, n);
  }

  lemma NegatedProduct(inv: nat, s: nat, p: int, z: nat, n: nat)
    requires s <= n
    ensures inv * ((n - s) * p - z) == inv * (s * (-p) - z) + n * (inv * p)
  {
    assert (n - s) * p == n * p - s * p;
    assert s * (-p) == -(s * p);
    var w := -(s * p) - z;
    assert (n - s) * p - z == n * p + w;
    assert inv * (n * p + w) == inv * (n * p) + inv * w;
    assert inv * (n * p) == n * (inv * p);
  }

  /** `(r, s)` is an ECDSA signature of `z` by key `d`: made with a nonce `k` whose point has abscissa `x`,
      `r` is `x` modulo N, and `s k = z + r d` modulo N. */
  predicate IsSignature(curve: Curve, d: nat, z: nat, x: nat, k: int, r: nat, s: nat) {
    && 1 <= d < N && 1 <= r < N && 1 <= s < N && x < P && r == x % N
    && curve.evenLog(x).Some?
    && ((k - curve.evenLog(x).value) % N == 0 || (k + curve.evenLog(x).value) % N == 0)
    && (s * k - z - r * d) % N == 0
  }

  predicate RecoversKey(curve: Curve, z: nat, r: nat, s: int, d: nat) {
    curve.RecoveredKey(z, r, s, 0) == Some(d) || curve.RecoveredKey(z, r, s, 1) == Some(d)
  }

  /** An id recovers the signing key exactly if it picks the nonce's own point. */
  lemma RecoversByNonce(curve: Curve, d: nat, z: nat, r: nat, s: nat, k: int, id: nat)
    requires curve.Valid() && 1 <= d < N && 1 <= r < N && 1 <= s < N && curve.evenLog(r).Some?
    requires (s * k - z - r * d) % N == 0
    ensures curve.RecoveredKey(z, r, s, id) == Some(d) <==> (curve.NoncePoint(r, id) - k) % N == 0
  {
    var p := curve.NoncePoint(r, id);
    KeyEquation(curve, z, r, s, id, d);
    InverseIsInverse(curve, s);
    NonceDifference(s, p, k, z + r * d, N);
    SInverts(curve.inverse(s), s, p - k, N);
  }

  /** The equation holds for `p` as it does for `k` exactly if s times their difference vanishes. */
  lemma NonceDifference(s: int, p: int, k: int, w: int, n: nat)
    requires n > 0 && (s * k - w) % n == 0
    ensures (s * p - w) % n == 0 <==> (s * (p - k)) % n == 0
  {
    assert s * (p - k) == s * p - s * k;
    if (s * p - w) % n == 0 {
      ZeroSum(s * p - w, s * k - w, n);
    }
    if (s * (p - k)) % n == 0 {
      ZeroSum(s * (p - k), s * k - w, n);
    }
  }

  lemma SInverts(inv: int, s: int, a: int, n: nat)
    requires n > 0 && (inv * s - 1) % n == 0
    ensures (s * a) % n == 0 <==> a % n == 0
  {
    Cancel(inv, s, 0, a, n);
    assert inv * 0 == 0;
    Opposite(a, n);
    Opposite(s * a, n);
  }

  /** A true signature recovers to its key at id 0 or 1 exactly if its nonce's abscissa is below N. */
  lemma SignatureRecoversExactly(curve: Curve, d: nat, z: nat, x: nat, k: int, r: nat, s: nat)
    requires curve.Valid() && IsSignature(curve, d, z, x, k, r, s)
    ensures RecoversKey(curve, z, r, s, d) <==> x < N
  {
    hide Curve.Valid, Curve.KeyAt, Curve.NoncePoint;
    WrapsExactly(x);
    if curve.evenLog(r).Some? {
      RecoversByNonce(curve, d, z, r, s, k, 0);
      RecoversByNonce(curve, d, z, r, s, k, 1);
      SameNonce(curve, x, r, k);
    }
  }

  lemma WrapsExactly(x: nat)
    requires x < P
    ensures x % N == x <==> x < N
  {
  }

  /** The points of abscissa `r` include the nonce's point exactly if `r` is the nonce's abscissa. */
  lemma SameNonce(curve: Curve, x: nat, r: nat, k: int)
    requires curve.Valid() && curve.evenLog(x).Some? && curve.evenLog(r).Some?
    requires (k - curve.evenLog(x).value) % N == 0 || (k + curve.evenLog(x).value) % N == 0
    ensures (curve.NoncePoint(r, 0) - k) % N == 0 || (curve.NoncePoint(r, 1) - k) % N == 0 <==> r == x
  {
    var e, f := curve.evenLog(x).value, curve.evenLog(r).value;
    Signs(f, e, k, N);
  }

  lemma Signs(f: int, e: int, k: int, n: nat)
    requires n > 0 && ((k - e) % n == 0 || (k + e) % n == 0)
    ensures (f - k) % n == 0 || (-f - k) % n == 0 ==> (e - f) % n == 0 || (e + f) % n == 0
    ensures f == e ==> (f - k) % n == 0 || (-f - k) % n == 0
  {
    Opposite(k - e, n);
    Opposite(k + e, n);
    if (k - e) % n == 0 && (f - k) % n == 0 {
      ZeroSum(f - k, k - e, n);
      Opposite(f - e, n);
    } else if (k - e) % n == 0 && (-f - k) % n == 0 {
      ZeroSum(-f - k, k - e, n);
      Opposite(-f - e, n);
    } else if (k + e) % n == 0 && (f - k) % n == 0 {
      ZeroSum(f - k, k + e, n);
    } else if (k + e) % n == 0 && (-f - k) % n == 0 {
      ZeroSum(-f - k, k + e, n);
    }
  }

  /** Where one id recovers `d`, the other recovers a key too, unless r d + 2 z vanishes modulo N, in which
      case it meets the point at infinity. */
  lemma OtherIdRecovers(curve: Curve, d: nat, z: nat, r: nat, s: nat, id: nat)
    requires curve.Valid() && id <= 1 && curve.RecoveredKey(z, r, s, id) == Some(d) && d < N
    ensures curve.RecoveredKey(z, r, s, 1 - id) == None <==> (r * d + 2 * z) % N == 0
  {
    var p := curve.NoncePoint(r, id);
    assert curve.NoncePoint(r, 1 - id) == -p;
    KeyEquation(curve, z, r, s, id, d);
    KeyEquation(curve, z, r, s, 1 - id, 0);
    assert s * (-p) == -(s * p);
    SumVanishes(s * p - z - r * d, s * (-p) - z, r * d + 2 * z, N);
  }

  lemma SumVanishes(a: int, b: int, c: int, n: nat)
    requires n > 0 && a % n == 0 && a + b + c == 0
    ensures b % n == 0 <==> c % n == 0
  {
    Opposite(a + b, n);
    Opposite(a + c, n);
    if b % n == 0 {
      ZeroSum(a, b, n);
    }
    if c % n == 0 {
      ZeroSum(a, c, n);
    }
  }

  // ----- true signatures that recovery does not find

  lemma ResidueDiffers(a: int, n: nat)
    requires n > 0
    ensures (a - a % n) % n == 0
  {
    ResidueIs(a, a % n, n);
  }

  /** The signature number for nonce logarithm `k` and right-hand side `w`. */
  lemma SolvesForS(curve: Curve, k: int, w: nat) returns (s: nat)
    requires curve.Valid() && k % N != 0 && w % N != 0
    ensures 1 <= s < N && (s * k - w) % N == 0
  {
    var kk := k % N;
    ResidueDiffers(k, N);
    InverseIsInverse(curve, kk);
    var inv := curve.inverse(kk);
    s := (inv * w) % N;
    ResidueDiffers(inv * w, N);
    TimesNonce(inv, kk, k, w, s, N);
    if s == 0 {
      assert 0 * k == 0;
      Opposite(w, N);
    }
  }

  lemma TimesNonce(inv: int, kk: int, k: int, w: int, s: int, n: nat)
    requires n > 0 && (inv * kk - 1) % n == 0 && (k - kk) % n == 0 && (inv * w - s) % n == 0
    ensures (s * k - w) % n == 0
  {
    CancelInverse(inv, kk, w, s, n);
    Negated(w - kk * s, kk * s - w, n);
    assert s * (k - kk) == s * k - kk * s;
    SumOfProducts(s, k - kk, 1, kk * s - w, s * k - w, n);
  }

  /** For every point whose abscissa is above N, every key and all digests but those of one residue, the point's
      logarithm as nonce makes a true signature that recovers to the key at neither id. */
  lemma WrappedSignatureExists(curve: Curve, x: nat, d: nat, z: nat) returns (k: int, r: nat, s: nat)
    requires curve.Valid() && N < x < P && curve.evenLog(x).Some? && 1 <= d < N
    requires (z + (x - N) * d) % N != 0
    ensures IsSignature(curve, d, z, x, k, r, s) && !RecoversKey(curve, z, r, s, d)
  {
    k, r := curve.evenLog(x).value, x - N;
    s := SolvesForS(curve, k, z + r * d);
    assert x % N == r;
    SignatureRecoversExactly(curve, d, z, x, k, r, s);
  }
}
