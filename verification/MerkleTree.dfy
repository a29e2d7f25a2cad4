/** The Merkle service's computation. The hash is a parameter of which nothing is assumed. */
module MerkleTree {
  import opened Wrappers
  import opened ByteStrings

  type Hash = Bytes -> Digest

  // ----- comparing byte strings

  /** `a` and `b` agree up to `i`, and not at `i`. */
  predicate DifferAt(a: Bytes, b: Bytes, i: nat) {
    && i <= |a| && i <= |b|
    && (forall k :: 0 <= k < i ==> a[k] == b[k])
    && (i == |a| || i == |b| || a[i] != b[i])
  }

  /** `a` is before `b`: it is a proper prefix of `b`, or the first difference is in its favour. */
  ghost predicate Before(a: Bytes, b: Bytes) {
    exists i: nat :: DifferAt(a, b, i) && i < |b| && (i == |a| || a[i] < b[i])
  }

  lemma DifferenceIsUnique(a: Bytes, b: Bytes, i: nat, j: nat)
    requires DifferAt(a, b, i) && DifferAt(a, b, j)
    ensures i == j
  {
  }

  /** The first difference decides. */
  lemma BeforeAt(a: Bytes, b: Bytes, i: nat)
    requires DifferAt(a, b, i)
    ensures Before(a, b) <==> i < |b| && (i == |a| || a[i] < b[i])
    ensures Before(b, a) <==> i < |a| && (i == |b| || b[i] < a[i])
    ensures a == b <==> i == |a| == |b|
  {
    assert DifferAt(b, a, i);
    if Before(a, b) {
      var j: nat :| DifferAt(a, b, j) && j < |b| && (j == |a| || a[j] < b[j]);
      DifferenceIsUnique(a, b, i, j);
    }
    if Before(b, a) {
      var j: nat :| DifferAt(b, a, j) && j < |a| && (j == |b| || b[j] < a[j]);
      DifferenceIsUnique(b, a, i, j);
    }
  }

  lemma FirstDifference(a: Bytes, b: Bytes) returns (i: nat)
    ensures DifferAt(a, b, i)
  {
    i := 0;
    while i < |a| && i < |b| && a[i] == b[i]
      invariant i <= |a| && i <= |b| && forall k :: 0 <= k < i ==> a[k] == b[k]
    {
      i := i + 1;
    }
  }

  /** Of any two byte strings exactly one is before the other, unless they are equal. */
  lemma BeforeIsTotal(a: Bytes, b: Bytes)
    ensures Before(a, b) || a == b || Before(b, a)
    ensures !(Before(a, b) && a == b) && !(Before(b, a) && a == b) && !(Before(a, b) && Before(b, a))
  {
    var i := FirstDifference(a, b);
    BeforeAt(a, b, i);
  }

  lemma BeforeIsTransitive(a: Bytes, b: Bytes, c: Bytes)
    requires Before(a, b) && Before(b, c)
    ensures Before(a, c)
  {
    var i: nat :| DifferAt(a, b, i) && i < |b| && (i == |a| || a[i] < b[i]);
    var j: nat :| DifferAt(b, c, j) && j < |c| && (j == |b| || b[j] < c[j]);
    assert DifferAt(a, c, if i < j then i else j);
  }

  /** "Not after" is a total order: reflexive, antisymmetric, transitive, and any two strings compare. */
  lemma NotAfterIsTotalOrder(a: Bytes, b: Bytes, c: Bytes)
    ensures !Before(a, a) && (Before(b, a) ==> !Before(a, b))
    ensures !Before(b, a) && !Before(a, b) ==> a == b
    ensures !Before(b, a) && !Before(c, b) ==> !Before(c, a)
  {
    BeforeIsTotal(a, a);
    BeforeIsTotal(a, b);
    BeforeIsTotal(b, c);
    BeforeIsTotal(a, c);
    hide Before;
    if Before(c, a) && !Before(b, a) && !Before(c, b) {
      if a == b || b == c {
      } else {
        BeforeIsTransitive(a, b, c);
      }
    }
  }

  /** A proper prefix is before what it starts; otherwise the lesser byte at the first difference decides. */
  lemma BeforeReads(a: Bytes, b: Bytes)
    ensures a < b || (exists i: nat :: i < |a| && i < |b| && a[..i] == b[..i] && a[i] < b[i]) <==> Before(a, b)
  {
    var i := FirstDifference(a, b);
    BeforeAt(a, b, i);
    if j: nat :| j < |a| && j < |b| && a[..j] == b[..j] && a[j] < b[j] {
      assert forall k :: 0 <= k < j ==> a[k] == a[..j][k] == b[..j][k] == b[k];
      assert DifferAt(a, b, j);
    }
    if Before(a, b) {
      assert a[..i] == b[..i];
    }
    if a < b {
      assert b[..|a|] == a;
      assert DifferAt(a, b, |a|);
    }
  }

  /** Negative, zero or positive as `a` is before, equal to or after `b`. */
  method CompareBytes(a: Bytes, b: Bytes) returns (r: int)
    ensures r < 0 <==> Before(a, b)
    ensures r == 0 <==> a == b
    ensures r > 0 <==> Before(b, a)
    ensures a < b || (exists i: nat :: i < |a| && i < |b| && a[..i] == b[..i] && a[i] < b[i]) ==> r < 0
    ensures b < a || (exists i: nat :: i < |a| && i < |b| && a[..i] == b[..i] && a[i] > b[i]) ==> r > 0
  {
    BeforeReads(a, b);
    BeforeReads(b, a);
    var i := 0;
    while i < |a| && i < |b|
      invariant i <= |a| && i <= |b| && forall k :: 0 <= k < i ==> a[k] == b[k]
    {
      var cmp := (a[i] as int) - (b[i] as int);
      if cmp != 0 {
        BeforeAt(a, b, i);
        return cmp;
      }
      i := i + 1;
    }
    BeforeAt(a, b, i);
    r := |a| - |b|;
  }

  // ----- hashing a pair

  /** The two strings in order, one after the other. */
  ghost function Combined(a: Bytes, b: Bytes): (c: Bytes)
    ensures |c| == |a| + |b|
  {
    if Before(b, a) then b + a else a + b
  }

  lemma CombinedReads(a: Bytes, b: Bytes)
    ensures Combined(a, b) == if Before(b, a) then b + a else a + b
  {
  }

  lemma CombinedIsSymmetric(a: Bytes, b: Bytes)
    ensures Combined(a, b) == Combined(b, a)
  {
    BeforeIsTotal(a, b);
  }

  /** For strings of one length the hashed input tells the unordered pair. */
  lemma CombinedTellsPair(a: Bytes, b: Bytes, c: Bytes, d: Bytes)
    requires |a| == |b| == |c| == |d| && Combined(a, b) == Combined(c, d)
    ensures (a == c && b == d) || (a == d && b == c)
  {
    var n := |a|;
    assert (a + b)[..n] == a && (a + b)[n..] == b && (b + a)[..n] == b && (b + a)[n..] == a;
    assert (c + d)[..n] == c && (c + d)[n..] == d && (d + c)[..n] == d && (d + c)[n..] == c;
  }

  ghost function PairHash(h: Hash, a: Bytes, b: Bytes): Digest {
    h(Combined(a, b))
  }

  /** What is hashed is the lesser string followed by the greater. */
  lemma PairHashReads(h: Hash, a: Bytes, b: Bytes)
    ensures a <= b || (exists i: nat :: i < |a| && i < |b| && a[..i] == b[..i] && a[i] < b[i]) ==>
              PairHash(h, a, b) == h(a + b)
    ensures b <= a || (exists i: nat :: i < |a| && i < |b| && a[..i] == b[..i] && a[i] > b[i]) ==>
              PairHash(h, a, b) == h(b + a)
  {
    BeforeReads(a, b);
    BeforeReads(b, a);
    BeforeIsTotal(a, b);
    hide Before;
    if a <= b && b <= a {
      assert a == b;
    }
  }

  /** Copies `src` into `dst` from `offset` on. */
  method BlockCopy(src: Bytes, dst: array<Byte>, offset: nat)
    requires offset + |src| <= dst.Length
    modifies dst
    ensures dst[..] == old(dst[..])[..offset] + src + old(dst[..])[offset + |src|..]
  {
    for i := 0 to |src|
      invariant forall k :: 0 <= k < dst.Length ==>
                  dst[k] == if offset <= k < offset + i then src[k - offset] else old(dst[k])
    {
      dst[offset + i] := src[i];
    }
  }

  method HashPair(h: Hash, a: Bytes, b: Bytes) returns (r: Digest)
    ensures r == PairHash(h, a, b)
    ensures !Before(b, a) ==> r == h(a + b)
    ensures Before(b, a) ==> r == h(b + a)
  {
    hide Before, Combined;
    CombinedReads(a, b);
    var cmp := CompareBytes(a, b);
    BeforeIsTotal(a, b);
    var first, second := if cmp <= 0 then a else b, if cmp <= 0 then b else a;
    var combined := new Byte[|first| + |second|];
    BlockCopy(first, combined, 0);
    BlockCopy(second, combined, |first|);
    assert combined[..] == first + second;
    r := h(combined[..]);
  }

  // ----- levels

  /** What is hashed for the `k`-th pair: an odd node at the end is paired with itself. */
  ghost function InputAt(level: seq<Bytes>, k: nat): Bytes
    requires 2 * k < |level|
  {
    Combined(level[2 * k], if 2 * k + 1 < |level| then level[2 * k + 1] else level[2 * k])
  }

  function NextSize(n: nat): nat {
    (n + 1) / 2
  }

  ghost function NextLevel(h: Hash, level: seq<Bytes>): (next: seq<Bytes>)
    ensures |next| == NextSize(|level|)
  {
    seq(NextSize(|level|), k requires 0 <= k < NextSize(|level|) => h(InputAt(level, k)))
  }

  ghost function Root(h: Hash, level: seq<Bytes>): Bytes
    requires level != []
    decreases |level|
  {
    if |level| == 1 then level[0] else Root(h, NextLevel(h, level))
  }

  /** What is hashed for the first `n` pairs. */
  ghost function FirstInputs(level: seq<Bytes>, n: nat): set<Bytes>
    requires n <= NextSize(|level|)
  {
    set k: nat | k < n :: InputAt(level, k)
  }

  ghost function LevelInputs(level: seq<Bytes>): set<Bytes> {
    FirstInputs(level, NextSize(|level|))
  }

  lemma FirstInputsStep(level: seq<Bytes>, n: nat)
    requires n < NextSize(|level|)
    ensures FirstInputs(level, n + 1) == FirstInputs(level, n) + {InputAt(level, n)}
  {
    hide InputAt;
  }

  /** Everything that is hashed on the way to the root. */
  ghost function HashedInputs(h: Hash, level: seq<Bytes>): set<Bytes>
    decreases |level|
  {
    if |level| <= 1 then {} else LevelInputs(level) + HashedInputs(h, NextLevel(h, level))
  }

  /** How many rounds `n` leaves take. */
  function Height(n: nat): nat {
    if n <= 1 then 0 else 1 + Height(NextSize(n))
  }

  /** How many pairs are hashed for `n` leaves. */
  function PairsHashed(n: nat): nat {
    if n <= 1 then 0 else NextSize(n) + PairsHashed(NextSize(n))
  }

  /** The inner loop: two nodes at a time, an odd last one with itself. */
  method HashLevel(h: Hash, level: seq<Bytes>)
    returns (nextLevel: seq<Bytes>, ghost calls: nat, ghost inputs: set<Bytes>)
    ensures nextLevel == NextLevel(h, level)
    ensures calls == NextSize(|level|) && inputs == LevelInputs(level)
  {
    hide Combined, FirstInputs;
    nextLevel, calls, inputs := [], 0, {};
    NoInputsYet(level);
    var i := 0;
    while i < |level|
      invariant i == 2 * |nextLevel| && |nextLevel| <= NextSize(|level|)
      invariant forall k :: 0 <= k < |nextLevel| ==> nextLevel[k] == NextLevel(h, level)[k]
      invariant calls == |nextLevel| && inputs == FirstInputs(level, |nextLevel|)
    {
      var hash;
      if i + 1 < |level| {
        hash := HashPair(h, level[i], level[i + 1]);
      } else {
        hash := HashPair(h, level[i], level[i]);
      }
      FirstInputsStep(level, |nextLevel|);
      inputs := inputs + {InputAt(level, |nextLevel|)};
      nextLevel := nextLevel + [hash];
      calls := calls + 1;
      i := i + 2;
    }
  }

  lemma NoInputsYet(level: seq<Bytes>)
    ensures FirstInputs(level, 0) == {}
  {
  }

  /** The loop, one level per round. The ghost results say what it did on the way. */
  method ComputeRoot(h: Hash, leafHashes: seq<Bytes>)
    returns (r: Result<Bytes>, ghost rounds: nat, ghost calls: nat, ghost hashed: set<Bytes>)
    ensures r.Failure? <==> leafHashes == []
    ensures r.Success? ==> r.value == Root(h, leafHashes)
    ensures rounds == Height(|leafHashes|) && calls == PairsHashed(|leafHashes|)
    ensures hashed == HashedInputs(h, leafHashes)
  {
    rounds, calls, hashed := 0, 0, {};
    if |leafHashes| == 0 {
      return Failure("Cannot compute a Merkle root over zero documents."), 0, 0, {};
    }
    var level := leafHashes;
    while |level| > 1
      invariant level != [] && Root(h, level) == Root(h, leafHashes)
      invariant rounds + Height(|level|) == Height(|leafHashes|)
      invariant calls + PairsHashed(|level|) == PairsHashed(|leafHashes|)
      invariant hashed + HashedInputs(h, level) == HashedInputs(h, leafHashes)
      decreases |level|
    {
      hide LevelInputs;
      ghost var levelCalls, levelInputs;
      level, levelCalls, levelInputs := HashLevel(h, level);
      rounds, calls, hashed := rounds + 1, calls + levelCalls, hashed + levelInputs;
    }
    r := Success(level[0]);
  }
}
