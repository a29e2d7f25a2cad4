/** What a Merkle root says about its leaves. The level-by-level loop computes the root of a perfect
    binary tree; that root fixes the leaves up to swapping siblings and up to taking some level of inner nodes
    for leaves, unless two different 64-byte inputs hashed on the way have one digest; and it fixes no more
    than that. */
module MerkleBinding {
  import opened ByteStrings
  import opened MerkleTree

  function Pow2(k: nat): (p: nat)
    ensures p >= 1
  {
    if k == 0 then 1 else 2 * Pow2(k - 1)
  }

  lemma HalfOfPower(k: nat)
    requires k >= 1
    ensures Pow2(k) == 2 * Pow2(k - 1) && Pow2(k) % 2 == 0 && NextSize(Pow2(k)) == Pow2(k - 1)
  {
    TwiceIsEven(Pow2(k - 1));
  }

  lemma TwiceIsEven(n: nat)
    ensures (2 * n) % 2 == 0
  {
  }

  /** `leaves` filled up to `2^k`: wherever the right half of a block is missing, the left is repeated. */
  function Pad(leaves: seq<Bytes>, k: nat): (r: seq<Bytes>)
    requires 1 <= |leaves| <= Pow2(k)
    ensures |r| == Pow2(k)
  {
    if k == 0 then leaves else
    var half := Pow2(k - 1);
    if |leaves| > half then leaves[..half] + Pad(leaves[half..], k - 1)
    else Pad(leaves, k - 1) + Pad(leaves, k - 1)
  }

  /** The root of the perfect tree over `2^k` leaves. */
  ghost function Perfect(h: Hash, leaves: seq<Bytes>, k: nat): Bytes
    requires |leaves| == Pow2(k)
  {
    if k == 0 then leaves[0] else
    var half := Pow2(k - 1);
    PairHash(h, Perfect(h, leaves[..half], k - 1), Perfect(h, leaves[half..], k - 1))
  }

  /** Everything hashed in the perfect tree. */
  ghost function TreeInputs(h: Hash, leaves: seq<Bytes>, k: nat): set<Bytes>
    requires |leaves| == Pow2(k)
  {
    if k == 0 then {} else
    var half := Pow2(k - 1);
    {Combined(Perfect(h, leaves[..half], k - 1), Perfect(h, leaves[half..], k - 1))}
    + TreeInputs(h, leaves[..half], k - 1) + TreeInputs(h, leaves[half..], k - 1)
  }

  // ----- the loop is the tree

  /** The height is the binary logarithm, rounded up. */
  lemma {:induction false} HeightIsLog(n: nat)
    requires n >= 1
    ensures n <= Pow2(Height(n))
    ensures n >= 2 ==> Pow2(Height(n) - 1) < n
  {
    if n >= 2 {
      HeightIsLog(NextSize(n));
    }
  }

  /** The loop hashes one pair per node it removes, and at most one more per round. */
  lemma {:induction false} PairsHashedBounds(n: nat)
    requires n >= 1
    ensures n - 1 <= PairsHashed(n) <= n - 1 + Height(n)
  {
    if n >= 2 {
      PairsHashedBounds(NextSize(n));
    }
  }

  lemma InputAtConcat(x: seq<Bytes>, y: seq<Bytes>, k: nat)
    requires |x| % 2 == 0 && 2 * k < |x + y|
    ensures InputAt(x + y, k) == if 2 * k < |x| then InputAt(x, k) else InputAt(y, k - |x| / 2)
  {
    hide Combined;
  }

  lemma NextLevelConcat(h: Hash, x: seq<Bytes>, y: seq<Bytes>)
    requires |x| % 2 == 0
    ensures NextLevel(h, x + y) == NextLevel(h, x) + NextLevel(h, y)
  {
    hide InputAt;
    forall k: nat | 2 * k < |x + y|
      ensures InputAt(x + y, k) == if 2 * k < |x| then InputAt(x, k) else InputAt(y, k - |x| / 2)
    {
      InputAtConcat(x, y, k);
    }
  }

  lemma LevelInputsConcat(x: seq<Bytes>, y: seq<Bytes>)
    requires |x| % 2 == 0
    ensures LevelInputs(x + y) == LevelInputs(x) + LevelInputs(y)
  {
    hide InputAt;
    forall k: nat | 2 * k < |x + y|
      ensures InputAt(x + y, k) == if 2 * k < |x| then InputAt(x, k) else InputAt(y, k - |x| / 2)
    {
      InputAtConcat(x, y, k);
    }
    forall k: nat | 2 * k < |y|
      ensures InputAt(y, k) == InputAt(x + y, k + |x| / 2)
    {
      InputAtConcat(x, y, k + |x| / 2);
    }
  }

  // ----- one step of padding and of the tree, without slices

  lemma PadRight(left: seq<Bytes>, right: seq<Bytes>, k: nat)
    requires k >= 1 && |left| == Pow2(k - 1) && 1 <= |right| <= Pow2(k - 1)
    ensures Pad(left + right, k) == left + Pad(right, k - 1)
  {
    assert (left + right)[..Pow2(k - 1)] == left && (left + right)[Pow2(k - 1)..] == right;
  }

  lemma PadLeft(leaves: seq<Bytes>, k: nat)
    requires k >= 1 && 1 <= |leaves| <= Pow2(k - 1)
    ensures Pad(leaves, k) == Pad(leaves, k - 1) + Pad(leaves, k - 1)
  {
  }

  lemma TreeJoin(h: Hash, left: seq<Bytes>, right: seq<Bytes>, k: nat)
    requires k >= 1 && |left| == Pow2(k - 1) == |right|
    ensures Perfect(h, left + right, k) == PairHash(h, Perfect(h, left, k - 1), Perfect(h, right, k - 1))
    ensures TreeInputs(h, left + right, k) ==
            {Combined(Perfect(h, left, k - 1), Perfect(h, right, k - 1))}
            + TreeInputs(h, left, k - 1) + TreeInputs(h, right, k - 1)
  {
    hide Combined;
    assert (left + right)[..Pow2(k - 1)] == left && (left + right)[Pow2(k - 1)..] == right;
  }

  lemma NextOfPair(h: Hash, a: Bytes, b: Bytes)
    ensures NextLevel(h, [a, b]) == [PairHash(h, a, b)]
    ensures LevelInputs([a, b]) == {Combined(a, b)}
  {
    hide Combined;
    assert InputAt([a, b], 0) == Combined(a, b);
  }

  lemma NextOfOne(h: Hash, a: Bytes)
    ensures NextLevel(h, [a]) == [PairHash(h, a, a)]
    ensures LevelInputs([a]) == {Combined(a, a)}
  {
    hide Combined;
    assert InputAt([a], 0) == Combined(a, a);
  }

  /** The roots of one, two and three leaves: the leaf; the hash of the lesser leaf and the greater; and with an
      odd leaf paired with itself. */
  lemma SmallRoots(h: Hash, a: Bytes, b: Bytes, c: Bytes)
    ensures Root(h, [a]) == a
    ensures a <= b || (exists i: nat :: i < |a| && i < |b| && a[..i] == b[..i] && a[i] < b[i]) ==>
              Root(h, [a, b]) == h(a + b)
    ensures b <= a || (exists i: nat :: i < |a| && i < |b| && a[..i] == b[..i] && a[i] > b[i]) ==>
              Root(h, [a, b]) == h(b + a)
    ensures Root(h, [a, b, c]) == Root(h, [Root(h, [a, b]), h(c + c)])
  {
    PairHashReads(h, a, b);
    PairHashReads(h, c, c);
    assert Root(h, [a]) == a && Root(h, [PairHash(h, a, b)]) == PairHash(h, a, b);
    hide NextLevel, Root, Combined;
    RootStep(h, [a, b]);
    NextOfPair(h, a, b);
    RootStep(h, [a, b, c]);
    assert [a, b] + [c] == [a, b, c];
    NextLevelConcat(h, [a, b], [c]);
    NextOfOne(h, c);
    assert [PairHash(h, a, b)] + [PairHash(h, c, c)] == [PairHash(h, a, b), PairHash(h, c, c)];
  }

  // ----- going up one level

  /** Padding and going up one level commute. */
  lemma {:induction false} PadNextLevel(h: Hash, leaves: seq<Bytes>, k: nat)
    requires k >= 1 && 1 <= |leaves| <= Pow2(k)
    ensures NextSize(|leaves|) <= Pow2(k - 1)
    ensures Pad(NextLevel(h, leaves), k - 1) == NextLevel(h, Pad(leaves, k))
    ensures LevelInputs(Pad(leaves, k)) == LevelInputs(leaves)
    decreases k, 1
  {
    hide Pad, NextLevel, LevelInputs, Pow2;
    HalfOfPower(k);
    if k == 1 {
      assert Pow2(0) == 1 by { PowerOfNought(); }
      PadPair(h, leaves);
    } else if |leaves| > Pow2(k - 1) {
      var left, right := leaves[..Pow2(k - 1)], leaves[Pow2(k - 1)..];
      assert leaves == left + right;
      PadNextLevelRight(h, left, right, k);
    } else {
      HalfOfPower(k - 1);
      PadNextLevel(h, leaves, k - 1);
      PadLeft(leaves, k);
      PadLeft(NextLevel(h, leaves), k - 1);
      NextLevelConcat(h, Pad(leaves, k - 1), Pad(leaves, k - 1));
      LevelInputsConcat(Pad(leaves, k - 1), Pad(leaves, k - 1));
    }
  }

  lemma PowerOfNought()
    ensures Pow2(0) == 1
  {
  }

  lemma {:induction false} PadNextLevelRight(h: Hash, left: seq<Bytes>, right: seq<Bytes>, k: nat)
    requires k >= 2 && |left| == Pow2(k - 1) && 1 <= |right| <= Pow2(k - 1)
    ensures NextSize(|left + right|) <= Pow2(k - 1)
    ensures Pad(NextLevel(h, left + right), k - 1) == NextLevel(h, Pad(left + right, k))
    ensures LevelInputs(Pad(left + right, k)) == LevelInputs(left + right)
    decreases k, 0
  {
    hide Pad, NextLevel, LevelInputs, Pow2;
    HalfOfPower(k);
    HalfOfPower(k - 1);
    PadNextLevel(h, right, k - 1);
    PadRight(left, right, k);
    NextLevelConcat(h, left, right);
    NextLevelConcat(h, left, Pad(right, k - 1));
    LevelInputsConcat(left, right);
    LevelInputsConcat(left, Pad(right, k - 1));
    PadRight(NextLevel(h, left), NextLevel(h, right), k - 1);
  }

  lemma PadPair(h: Hash, leaves: seq<Bytes>)
    requires 1 <= |leaves| <= 2
    ensures Pad(NextLevel(h, leaves), 0) == NextLevel(h, Pad(leaves, 1))
    ensures LevelInputs(Pad(leaves, 1)) == LevelInputs(leaves)
  {
    hide NextLevel, LevelInputs;
    if |leaves| == 1 {
      var a := leaves[0];
      assert leaves == [a];
      PadLeft([a], 1);
      assert Pad([a], 0) + Pad([a], 0) == [a, a];
      NextOfOne(h, a);
      NextOfPair(h, a, a);
    } else {
      PadRight(leaves[..1], leaves[1..], 1);
      assert leaves == leaves[..1] + leaves[1..];
    }
  }

  /** A perfect tree is the perfect tree over its next level. */
  lemma {:induction false} PerfectNextLevel(h: Hash, leaves: seq<Bytes>, k: nat)
    requires k >= 1 && |leaves| == Pow2(k)
    ensures Perfect(h, leaves, k) == Perfect(h, NextLevel(h, leaves), k - 1)
    ensures TreeInputs(h, leaves, k) == LevelInputs(leaves) + TreeInputs(h, NextLevel(h, leaves), k - 1)
  {
    hide NextLevel, LevelInputs, Perfect, TreeInputs, Combined, Pow2;
    HalfOfPower(k);
    if k == 1 {
      PowerOfNought();
      assert leaves == [leaves[0], leaves[1]];
      PerfectPair(h, leaves[0], leaves[1]);
    } else {
      HalfOfPower(k - 1);
      var left, right := leaves[..Pow2(k - 1)], leaves[Pow2(k - 1)..];
      assert leaves == left + right;
      PerfectNextLevel(h, left, k - 1);
      PerfectNextLevel(h, right, k - 1);
      NextLevelConcat(h, left, right);
      LevelInputsConcat(left, right);
      TreeJoin(h, left, right, k);
      TreeJoin(h, NextLevel(h, left), NextLevel(h, right), k - 1);
    }
  }

  lemma PerfectPair(h: Hash, a: Bytes, b: Bytes)
    ensures Perfect(h, [a, b], 1) == Perfect(h, NextLevel(h, [a, b]), 0)
    ensures TreeInputs(h, [a, b], 1) == LevelInputs([a, b]) + TreeInputs(h, NextLevel(h, [a, b]), 0)
  {
    hide NextLevel, LevelInputs, Combined;
    assert [a, b] == [a] + [b];
    TreeJoin(h, [a], [b], 1);
    NextOfPair(h, a, b);
  }

  /** The loop computes the root of the perfect tree over the padded leaves, and hashes what that tree
      hashes. */
  lemma {:induction false} RootIsPerfect(h: Hash, leaves: seq<Bytes>)
    requires leaves != []
    ensures |leaves| <= Pow2(Height(|leaves|))
    ensures Root(h, leaves) == Perfect(h, Pad(leaves, Height(|leaves|)), Height(|leaves|))
    ensures HashedInputs(h, leaves) == TreeInputs(h, Pad(leaves, Height(|leaves|)), Height(|leaves|))
    decreases |leaves|
  {
    hide Combined, LevelInputs, NextLevel, Perfect, Pad, TreeInputs, Root, HashedInputs, Height;
    var k := Height(|leaves|);
    HeightIsLog(|leaves|);
    if |leaves| == 1 {
      assert leaves == [leaves[0]];
      RootOfOne(h, leaves[0]);
    } else {
      RootStep(h, leaves);
      RootIsPerfect(h, NextLevel(h, leaves));
      PadNextLevel(h, leaves, k);
      PerfectNextLevel(h, Pad(leaves, k), k);
    }
  }

  lemma RootOfOne(h: Hash, a: Bytes)
    ensures Height(1) == 0 && Pow2(0) == 1 && Pad([a], 0) == [a]
    ensures Root(h, [a]) == Perfect(h, [a], 0) == a
    ensures HashedInputs(h, [a]) == TreeInputs(h, [a], 0) == {}
  {
  }

  lemma RootStep(h: Hash, leaves: seq<Bytes>)
    requires |leaves| > 1
    ensures Root(h, leaves) == Root(h, NextLevel(h, leaves))
    ensures HashedInputs(h, leaves) == LevelInputs(leaves) + HashedInputs(h, NextLevel(h, leaves))
    ensures Height(|leaves|) == 1 + Height(NextSize(|leaves|))
  {
    hide LevelInputs, NextLevel;
  }

  // ----- the root fixes the leaves up to swapping siblings

  /** The two trees are the same up to swapping the two children of some nodes. */
  predicate SameTree(xs: seq<Bytes>, ys: seq<Bytes>, k: nat)
    requires |xs| == Pow2(k) == |ys|
  {
    if k == 0 then xs == ys else
    var half := Pow2(k - 1);
    || (SameTree(xs[..half], ys[..half], k - 1) && SameTree(xs[half..], ys[half..], k - 1))
    || (SameTree(xs[..half], ys[half..], k - 1) && SameTree(xs[half..], ys[..half], k - 1))
  }

  /** Two different 64-byte inputs, one from each set, have the same digest. */
  ghost predicate Collision(h: Hash, inputs: set<Bytes>, others: set<Bytes>) {
    exists a, b :: a in inputs && b in others && Collides(h, a, b)
  }

  predicate Collides(h: Hash, a: Bytes, b: Bytes) {
    a != b && |a| == 64 == |b| && h(a) == h(b)
  }

  predicate AllDigests(leaves: seq<Bytes>) {
    forall i :: 0 <= i < |leaves| ==> |leaves[i]| == 32
  }

  lemma CollisionIn(h: Hash, inputs: set<Bytes>, others: set<Bytes>, more: set<Bytes>, moreOthers: set<Bytes>)
    requires Collision(h, inputs, others) && inputs <= more && others <= moreOthers
    ensures Collision(h, more, moreOthers)
  {
  }

  lemma SameTreeLeaf(xs: seq<Bytes>, ys: seq<Bytes>)
    requires |xs| == Pow2(0) == |ys| && SameTree(xs, ys, 0)
    ensures xs == ys
  {
  }

  lemma SameTreeSplits(xs: seq<Bytes>, ys: seq<Bytes>, k: nat)
    requires k >= 1 && |xs| == Pow2(k) == |ys| && SameTree(xs, ys, k)
    ensures var half := Pow2(k - 1);
            || (SameTree(xs[..half], ys[..half], k - 1) && SameTree(xs[half..], ys[half..], k - 1))
            || (SameTree(xs[..half], ys[half..], k - 1) && SameTree(xs[half..], ys[..half], k - 1))
  {
  }

  /** Swapping siblings anywhere leaves the root as it is. */
  lemma {:induction false} SameTreeSameRoot(h: Hash, xs: seq<Bytes>, ys: seq<Bytes>, k: nat)
    requires |xs| == Pow2(k) == |ys| && SameTree(xs, ys, k)
    ensures Perfect(h, xs, k) == Perfect(h, ys, k)
  {
    hide Combined, Perfect, TreeInputs, SameTree, Pow2;
    if k == 0 {
      SameTreeLeaf(xs, ys);
    } else {
      HalfOfPower(k);
      var half := Pow2(k - 1);
      var xl, xr, yl, yr := xs[..half], xs[half..], ys[..half], ys[half..];
      assert xs == xl + xr && ys == yl + yr;
      TreeJoin(h, xl, xr, k);
      TreeJoin(h, yl, yr, k);
      SameTreeSplits(xs, ys, k);
      if SameTree(xl, yl, k - 1) && SameTree(xr, yr, k - 1) {
        SameTreeSameRoot(h, xl, yl, k - 1);
        SameTreeSameRoot(h, xr, yr, k - 1);
      } else {
        SameTreeSameRoot(h, xl, yr, k - 1);
        SameTreeSameRoot(h, xr, yl, k - 1);
        CombinedIsSymmetric(Perfect(h, xl, k - 1), Perfect(h, xr, k - 1));
      }
    }
  }

  /** Equal roots of equally high trees come from the same tree, or from a collision on the way. */
  lemma {:induction false} SameRootSameTree(h: Hash, xs: seq<Bytes>, ys: seq<Bytes>, k: nat)
    requires |xs| == Pow2(k) == |ys| && AllDigests(xs) && AllDigests(ys)
    requires Perfect(h, xs, k) == Perfect(h, ys, k)
    ensures SameTree(xs, ys, k) || Collision(h, TreeInputs(h, xs, k), TreeInputs(h, ys, k))
    decreases k, 1
  {
    hide Combined, Perfect, SameTree, TreeInputs;
    if k == 0 {
      SameLeaf(h, xs, ys);
    } else {
      var half := Pow2(k - 1);
      var xl, xr, yl, yr := xs[..half], xs[half..], ys[..half], ys[half..];
      assert xs == xl + xr && ys == yl + yr;
      TreeJoin(h, xl, xr, k);
      TreeJoin(h, yl, yr, k);
      var a, b := Perfect(h, xl, k - 1), Perfect(h, xr, k - 1);
      var c, d := Perfect(h, yl, k - 1), Perfect(h, yr, k - 1);
      PerfectIsDigest(h, xl, k - 1);
      PerfectIsDigest(h, xr, k - 1);
      PerfectIsDigest(h, yl, k - 1);
      PerfectIsDigest(h, yr, k - 1);
      if Combined(a, b) != Combined(c, d) {
        assert Collides(h, Combined(a, b), Combined(c, d));
      } else {
        CombinedTellsPair(a, b, c, d);
        if a == c && b == d {
          SameHalves(h, xl, xr, yl, yr, xs, ys, k);
        } else {
          SameHalves(h, xl, xr, yr, yl, xs, ys, k);
        }
      }
    }
  }

  lemma SameLeaf(h: Hash, xs: seq<Bytes>, ys: seq<Bytes>)
    requires |xs| == Pow2(0) == |ys| && Perfect(h, xs, 0) == Perfect(h, ys, 0)
    ensures SameTree(xs, ys, 0)
  {
    assert xs == [xs[0]] && ys == [ys[0]];
  }

  lemma PerfectIsDigest(h: Hash, xs: seq<Bytes>, k: nat)
    requires |xs| == Pow2(k) && AllDigests(xs)
    ensures |Perfect(h, xs, k)| == 32
  {
  }

  /** The two halves of `xs` have the roots of `yl` and `yr`, which are the halves of `ys` in some order. */
  lemma {:induction false} SameHalves(h: Hash, xl: seq<Bytes>, xr: seq<Bytes>, yl: seq<Bytes>, yr: seq<Bytes>,
                                      xs: seq<Bytes>, ys: seq<Bytes>, k: nat)
    requires k >= 1 && |xs| == Pow2(k) == |ys| && AllDigests(xs) && AllDigests(ys)
    requires xl == xs[..Pow2(k - 1)] && xr == xs[Pow2(k - 1)..]
    requires || (yl == ys[..Pow2(k - 1)] && yr == ys[Pow2(k - 1)..])
             || (yr == ys[..Pow2(k - 1)] && yl == ys[Pow2(k - 1)..])
    requires Perfect(h, xl, k - 1) == Perfect(h, yl, k - 1) && Perfect(h, xr, k - 1) == Perfect(h, yr, k - 1)
    ensures SameTree(xs, ys, k) || Collision(h, TreeInputs(h, xs, k), TreeInputs(h, ys, k))
    decreases k, 0
  {
    hide Combined, Perfect;
    SameRootSameTree(h, xl, yl, k - 1);
    SameRootSameTree(h, xr, yr, k - 1);
    if !SameTree(xl, yl, k - 1) {
      CollisionIn(h, TreeInputs(h, xl, k - 1), TreeInputs(h, yl, k - 1), TreeInputs(h, xs, k), TreeInputs(h, ys, k));
    } else if !SameTree(xr, yr, k - 1) {
      CollisionIn(h, TreeInputs(h, xr, k - 1), TreeInputs(h, yr, k - 1), TreeInputs(h, xs, k), TreeInputs(h, ys, k));
    }
  }

  lemma {:induction false} SameTreeSameMultiset(xs: seq<Bytes>, ys: seq<Bytes>, k: nat)
    requires |xs| == Pow2(k) == |ys| && SameTree(xs, ys, k)
    ensures multiset(xs) == multiset(ys)
  {
    if k > 0 {
      var half := Pow2(k - 1);
      assert xs == xs[..half] + xs[half..] && ys == ys[..half] + ys[half..];
      if SameTree(xs[..half], ys[..half], k - 1) && SameTree(xs[half..], ys[half..], k - 1) {
        SameTreeSameMultiset(xs[..half], ys[..half], k - 1);
        SameTreeSameMultiset(xs[half..], ys[half..], k - 1);
      } else {
        SameTreeSameMultiset(xs[..half], ys[half..], k - 1);
        SameTreeSameMultiset(xs[half..], ys[..half], k - 1);
      }
    }
  }

  /** Padding adds no leaf value and loses none, and does nothing to a full tree. */
  lemma {:induction false} PadKeepsLeaves(leaves: seq<Bytes>, k: nat)
    requires 1 <= |leaves| <= Pow2(k)
    ensures forall x :: x in Pad(leaves, k) <==> x in leaves
    ensures |leaves| == Pow2(k) ==> Pad(leaves, k) == leaves
    ensures AllDigests(leaves) ==> AllDigests(Pad(leaves, k))
  {
    if k > 0 {
      var half := Pow2(k - 1);
      if |leaves| > half {
        assert leaves == leaves[..half] + leaves[half..];
        PadKeepsLeaves(leaves[half..], k - 1);
      } else {
        PadKeepsLeaves(leaves, k - 1);
      }
    }
  }

  // ----- the results

  /** The level of `2^k` nodes in the perfect tree over `2^m` leaves. */
  ghost function Level(h: Hash, leaves: seq<Bytes>, m: nat, k: nat): (r: seq<Bytes>)
    requires |leaves| == Pow2(m) && k <= m
    ensures |r| == Pow2(k)
    decreases m
  {
    if m == k then leaves else
    HalfOfPower(m);
    Level(h, NextLevel(h, leaves), m - 1, k)
  }

  lemma NextIsDigests(h: Hash, leaves: seq<Bytes>)
    ensures AllDigests(NextLevel(h, leaves))
  {
    hide InputAt;
    forall i | 0 <= i < |NextLevel(h, leaves)|
      ensures |NextLevel(h, leaves)[i]| == 32
    {
      var digest: Digest := h(InputAt(leaves, i));
      assert NextLevel(h, leaves)[i] == digest;
    }
  }

  /** A perfect tree is the perfect tree over any of its levels, which hashes a part of what it hashes. */
  lemma {:induction false} LevelKeepsRoot(h: Hash, leaves: seq<Bytes>, m: nat, k: nat)
    requires |leaves| == Pow2(m) && k <= m && AllDigests(leaves)
    ensures AllDigests(Level(h, leaves, m, k))
    ensures Perfect(h, Level(h, leaves, m, k), k) == Perfect(h, leaves, m)
    ensures TreeInputs(h, Level(h, leaves, m, k), k) <= TreeInputs(h, leaves, m)
    decreases m
  {
    hide NextLevel, LevelInputs, Perfect, TreeInputs, AllDigests, Pow2;
    if k < m {
      HalfOfPower(m);
      NextIsDigests(h, leaves);
      PerfectNextLevel(h, leaves, m);
      LevelKeepsRoot(h, NextLevel(h, leaves), m - 1, k);
    }
  }

  function Min(a: nat, b: nat): nat {
    if a <= b then a else b
  }

  /** The padded tree of `leaves`, cut off below its level of `2^k` nodes. */
  ghost function Top(h: Hash, leaves: seq<Bytes>, k: nat): (r: seq<Bytes>)
    requires leaves != [] && k <= Height(|leaves|)
    ensures |r| == Pow2(k)
  {
    HeightIsLog(|leaves|);
    Level(h, Pad(leaves, Height(|leaves|)), Height(|leaves|), k)
  }

  lemma TopKeepsRoot(h: Hash, leaves: seq<Bytes>, k: nat)
    requires leaves != [] && AllDigests(leaves) && k <= Height(|leaves|)
    ensures AllDigests(Top(h, leaves, k)) && Perfect(h, Top(h, leaves, k), k) == Root(h, leaves)
    ensures TreeInputs(h, Top(h, leaves, k), k) <= HashedInputs(h, leaves)
  {
    hide Pad, Perfect, TreeInputs, HashedInputs, Root, Height, AllDigests, Level, Pow2;
    RootIsPerfect(h, leaves);
    PadKeepsLeaves(leaves, Height(|leaves|));
    LevelKeepsRoot(h, Pad(leaves, Height(|leaves|)), Height(|leaves|), k);
  }

  /** Two lists of 32-byte leaves have one root exactly if their padded trees, the higher one cut off at the
      height of the lower, are the same up to swapping siblings; unless a collision is exhibited. */
  lemma RootsAgreeExactly(h: Hash, xs: seq<Bytes>, ys: seq<Bytes>)
    requires xs != [] && ys != [] && AllDigests(xs) && AllDigests(ys)
    ensures var k := Min(Height(|xs|), Height(|ys|));
            && (SameTree(Top(h, xs, k), Top(h, ys, k), k) ==> Root(h, xs) == Root(h, ys))
            && (Root(h, xs) == Root(h, ys) ==>
                  || SameTree(Top(h, xs, k), Top(h, ys, k), k)
                  || Collision(h, HashedInputs(h, xs), HashedInputs(h, ys)))
  {
    hide Perfect, SameTree, TreeInputs, HashedInputs, Root, Collision, Height, AllDigests, Top, Pow2;
    var k := Min(Height(|xs|), Height(|ys|));
    TopKeepsRoot(h, xs, k);
    TopKeepsRoot(h, ys, k);
    var x, y := Top(h, xs, k), Top(h, ys, k);
    if SameTree(x, y, k) {
      SameTreeSameRoot(h, x, y, k);
    }
    if Root(h, xs) == Root(h, ys) {
      SameRootSameTree(h, x, y, k);
      if !SameTree(x, y, k) {
        CollisionIn(h, TreeInputs(h, x, k), TreeInputs(h, y, k), HashedInputs(h, xs), HashedInputs(h, ys));
      }
    }
  }

  /** For lists of one height nothing is cut off: the padded trees themselves are compared. */
  lemma RootsAgreeAtOneHeight(h: Hash, xs: seq<Bytes>, ys: seq<Bytes>)
    requires xs != [] && ys != [] && AllDigests(xs) && AllDigests(ys)
    requires Height(|xs|) == Height(|ys|)
    ensures |xs| <= Pow2(Height(|xs|)) && |ys| <= Pow2(Height(|xs|))
    ensures SameTree(Pad(xs, Height(|xs|)), Pad(ys, Height(|xs|)), Height(|xs|)) ==> Root(h, xs) == Root(h, ys)
    ensures Root(h, xs) == Root(h, ys) ==>
              || SameTree(Pad(xs, Height(|xs|)), Pad(ys, Height(|xs|)), Height(|xs|))
              || Collision(h, HashedInputs(h, xs), HashedInputs(h, ys))
  {
    HeightIsLog(|xs|);
    HeightIsLog(|ys|);
    hide Pad, SameTree, HashedInputs, Root, Collision, Height, AllDigests, Pow2;
    RootsAgreeExactly(h, xs, ys);
  }

  /** Every list of two or more leaves has the root of a shorter list of 32-byte leaves, its own next level of
      inner nodes: a root does not tell leaves from inner nodes. */
  lemma InnerNodesPassForLeaves(h: Hash, leaves: seq<Bytes>)
    requires |leaves| >= 2
    ensures var inner := NextLevel(h, leaves);
            AllDigests(inner) && 1 <= |inner| < |leaves| && Root(h, inner) == Root(h, leaves)
  {
    hide Root;
    RootStep(h, leaves);
    NextIsDigests(h, leaves);
  }

  /** So four documents and the two hashes of their pairs have one root. */
  lemma FourLeavesAndTwo(h: Hash, a: Bytes, b: Bytes, c: Bytes, d: Bytes)
    ensures Root(h, [a, b, c, d]) == Root(h, [PairHash(h, a, b), PairHash(h, c, d)])
  {
    hide Root, NextLevel, Combined;
    assert [a, b] + [c, d] == [a, b, c, d];
    NextLevelConcat(h, [a, b], [c, d]);
    NextOfPair(h, a, b);
    NextOfPair(h, c, d);
    assert [PairHash(h, a, b)] + [PairHash(h, c, d)] == [PairHash(h, a, b), PairHash(h, c, d)];
    InnerNodesPassForLeaves(h, [a, b, c, d]);
  }

  /** Equal roots of equally high trees mean equal sets of leaves, and equal multisets if both trees are
      full, or the two computations exhibit a collision. */
  lemma RootBindsLeaves(h: Hash, xs: seq<Bytes>, ys: seq<Bytes>)
    requires xs != [] && ys != [] && AllDigests(xs) && AllDigests(ys)
    requires Height(|xs|) == Height(|ys|) && Root(h, xs) == Root(h, ys)
    ensures || Collision(h, HashedInputs(h, xs), HashedInputs(h, ys))
            || ((forall x :: x in xs <==> x in ys) &&
                (|xs| == Pow2(Height(|xs|)) == |ys| ==> multiset(xs) == multiset(ys)))
  {
    hide Pad, Perfect, SameTree, TreeInputs, HashedInputs, Root, Collision, Height, AllDigests;
    var k := Height(|xs|);
    RootsAgreeAtOneHeight(h, xs, ys);
    PadKeepsLeaves(xs, k);
    PadKeepsLeaves(ys, k);
    if SameTree(Pad(xs, k), Pad(ys, k), k) {
      SameTreeSameMultiset(Pad(xs, k), Pad(ys, k), k);
      SameMembers(Pad(xs, k), Pad(ys, k));
    }
  }

  lemma SameMembers(xs: seq<Bytes>, ys: seq<Bytes>)
    requires multiset(xs) == multiset(ys)
    ensures forall x :: x in xs <==> x in ys
  {
    assert forall x :: x in xs <==> x in multiset(xs);
    assert forall x :: x in ys <==> x in multiset(ys);
  }

  // ----- the boundary

  /** Swapping two adjacent sibling blocks of `2^j` leaves, whole and aligned, leaves the root as it is. */
  lemma {:induction false} SiblingSwap(h: Hash, pre: seq<Bytes>, x: seq<Bytes>, y: seq<Bytes>, post: seq<Bytes>,
                                       j: nat, m: nat)
    requires |x| == Pow2(j) == |y| && |pre| == m * Pow2(j + 1)
    ensures Root(h, pre + x + y + post) == Root(h, pre + y + x + post)
    decreases j
  {
    hide Combined, NextLevel, Root, Pow2;
    Halving(m, j);
    if j > 0 {
      HalfOfPower(j);
    }
    NextOfFour(h, pre, x, y, post, j);
    NextOfFour(h, pre, y, x, post, j);
    RootStep(h, pre + x + y + post);
    RootStep(h, pre + y + x + post);
    if j > 0 {
      SiblingSwap(h, NextLevel(h, pre), NextLevel(h, x), NextLevel(h, y), NextLevel(h, post), j - 1, m);
    }
  }

  lemma Halving(m: nat, j: nat)
    ensures m * Pow2(j + 1) == 2 * (m * Pow2(j))
    ensures (m * Pow2(j + 1)) % 2 == 0 && NextSize(m * Pow2(j + 1)) == m * Pow2(j)
  {
    HalfOfPower(j + 1);
    hide Pow2;
    assert m * (2 * Pow2(j)) == 2 * (m * Pow2(j));
    TwiceIsEven(m * Pow2(j));
  }

  /** The level above four parts of which the middle two are siblings. */
  lemma NextOfFour(h: Hash, pre: seq<Bytes>, x: seq<Bytes>, y: seq<Bytes>, post: seq<Bytes>, j: nat)
    requires |x| == Pow2(j) == |y| && |pre| % 2 == 0
    ensures j > 0 ==> NextLevel(h, pre + x + y + post) ==
                      NextLevel(h, pre) + NextLevel(h, x) + NextLevel(h, y) + NextLevel(h, post)
    ensures j == 0 ==> NextLevel(h, pre + x + y + post) ==
                       NextLevel(h, pre) + [PairHash(h, x[0], y[0])] + NextLevel(h, post)
    ensures PairHash(h, x[0], y[0]) == PairHash(h, y[0], x[0])
  {
    hide Combined, NextLevel, Pow2;
    assert |x + y| % 2 == 0 by { EvenPair(j); }
    CombinedIsSymmetric(x[0], y[0]);
    NextLevelConcat(h, pre + x + y, post);
    assert pre + x + y == pre + (x + y);
    NextLevelConcat(h, pre, x + y);
    EvenPair(j);
    if j == 0 {
      assert x + y == [x[0], y[0]];
      NextOfPair(h, x[0], y[0]);
    } else {
      NextLevelConcat(h, x, y);
    }
  }

  lemma EvenPair(j: nat)
    ensures (Pow2(j) + Pow2(j)) % 2 == 0 && (if j == 0 then Pow2(j) == 1 else Pow2(j) % 2 == 0)
  {
    if j == 0 {
      PowerOfNought();
    } else {
      HalfOfPower(j);
    }
    hide Pow2;
    TwiceIsEven(Pow2(j));
  }

  /** Of three different documents the orders A, B, C and C, A, B have different roots, unless a
      collision is exhibited: the root does depend on upload order. */
  lemma ThreeLeavesShowOrder(h: Hash, a: Bytes, b: Bytes, c: Bytes)
    requires |a| == 32 && |b| == 32 && |c| == 32 && a != b && b != c && a != c
    requires Root(h, [a, b, c]) == Root(h, [c, a, b])
    ensures Collision(h, HashedInputs(h, [a, b, c]), HashedInputs(h, [c, a, b]))
  {
    hide Combined, Root, HashedInputs, Collision, SameTree, Pad;
    assert AllDigests([a, b, c]) && AllDigests([c, a, b]);
    assert Height(3) == 2;
    RootsAgreeAtOneHeight(h, [a, b, c], [c, a, b]);
    PadThree(a, b, c);
    PadThree(c, a, b);
    ThreeLeavesDiffer(a, b, c);
  }

  lemma PadThree(a: Bytes, b: Bytes, c: Bytes)
    ensures Pow2(2) == 4 && Pad([a, b, c], 2) == [a, b, c, c]
  {
    assert [a, b] + [c] == [a, b, c] && [a, b] + [c, c] == [a, b, c, c] && [c] + [c] == [c, c];
    PadRight([a, b], [c], 2);
    PadLeft([c], 1);
  }

  lemma ThreeLeavesDiffer(a: Bytes, b: Bytes, c: Bytes)
    requires a != b && b != c && a != c
    ensures Pow2(2) == 4 && !SameTree([a, b, c, c], [c, a, b, b], 2)
  {
    assert multiset([a, b, c, c])[b] == 1 && multiset([c, a, b, b])[b] == 2;
    if SameTree([a, b, c, c], [c, a, b, b], 2) {
      SameTreeSameMultiset([a, b, c, c], [c, a, b, b], 2);
      assert false;
    }
  }

  /** Siblings stay siblings: the pair at an even place of one tree is a pair of the other. */
  lemma {:induction false} SiblingsStay(xs: seq<Bytes>, ys: seq<Bytes>, k: nat, i: nat) returns (j: nat)
    requires k >= 1 && |xs| == Pow2(k) == |ys| && SameTree(xs, ys, k) && 2 * i + 1 < |xs|
    ensures 2 * j + 1 < |ys|
    ensures || (ys[2 * j] == xs[2 * i] && ys[2 * j + 1] == xs[2 * i + 1])
            || (ys[2 * j] == xs[2 * i + 1] && ys[2 * j + 1] == xs[2 * i])
  {
    if k == 1 {
      j := 0;
      assert xs[..1][0] == xs[0] && xs[1..][0] == xs[1] && ys[..1][0] == ys[0] && ys[1..][0] == ys[1];
    } else {
      var quarter := Pow2(k - 2);
      var half := 2 * quarter;
      var left := i < quarter;
      var part, i' := if left then xs[..half] else xs[half..], if left then i else i - quarter;
      assert part[2 * i'] == xs[2 * i] && part[2 * i' + 1] == xs[2 * i + 1];
      if SameTree(part, ys[..half], k - 1) {
        j := SiblingsStay(part, ys[..half], k - 1, i');
      } else {
        var j' := SiblingsStay(part, ys[half..], k - 1, i');
        j := j' + quarter;
        assert ys[half..][2 * j'] == ys[2 * j] && ys[half..][2 * j' + 1] == ys[2 * j + 1];
      }
    }
  }

  predicate Distinct(leaves: seq<Bytes>) {
    forall i, j :: 0 <= i < j < |leaves| ==> leaves[i] != leaves[j]
  }

  /** In a tree no higher than needed, padding keeps the left half and repeats nothing of it. */
  lemma PadKeepsLeft(leaves: seq<Bytes>, k: nat, p: nat)
    requires k >= 1 && Pow2(k - 1) < |leaves| <= Pow2(k) && Distinct(leaves) && p < Pow2(k)
    ensures p < Pow2(k - 1) ==> Pad(leaves, k)[p] == leaves[p]
    ensures Pad(leaves, k)[p] == leaves[0] ==> p == 0
  {
    hide Pad;
    var half := Pow2(k - 1);
    var left, right := leaves[..half], leaves[half..];
    assert leaves == left + right;
    PadRight(left, right, k);
    PadKeepsLeaves(right, k - 1);
    if p >= half {
      assert Pad(right, k - 1)[p - half] in right;
    }
  }

  /** Different documents, three or more, with the second and third exchanged. */
  function Exchanged(leaves: seq<Bytes>): seq<Bytes>
    requires |leaves| >= 3
  {
    leaves[1 := leaves[2]][2 := leaves[1]]
  }

  lemma ExchangeMovesSiblings(leaves: seq<Bytes>, k: nat)
    requires |leaves| >= 3 && Distinct(leaves) && k >= 1 && Pow2(k - 1) < |leaves| <= Pow2(k)
    ensures !SameTree(Pad(leaves, k), Pad(Exchanged(leaves), k), k)
  {
    hide SameTree, Pad;
    var other := Exchanged(leaves);
    assert k >= 2;
    PadKeepsLeft(leaves, k, 0);
    PadKeepsLeft(leaves, k, 1);
    PadKeepsLeft(other, k, 1);
    if SameTree(Pad(leaves, k), Pad(other, k), k) {
      var j := SiblingsStay(Pad(leaves, k), Pad(other, k), k, 0);
      PadKeepsLeft(other, k, 2 * j);
      PadKeepsLeft(other, k, 2 * j + 1);
      assert false;
    }
  }

  /** Order does not matter to the root for one or two documents. For three or more different ones it
      does: exchanging the second and the third changes the root, or a collision is exhibited. */
  lemma OrderMattersFromThree(h: Hash, leaves: seq<Bytes>)
    requires leaves != [] && AllDigests(leaves) && Distinct(leaves)
    ensures |leaves| <= 2 ==>
              forall ys :: multiset(ys) == multiset(leaves) ==> ys != [] && Root(h, ys) == Root(h, leaves)
    ensures |leaves| >= 3 ==>
              && multiset(Exchanged(leaves)) == multiset(leaves)
              && (Root(h, Exchanged(leaves)) != Root(h, leaves) ||
                  Collision(h, HashedInputs(h, leaves), HashedInputs(h, Exchanged(leaves))))
  {
    hide Root, HashedInputs, Collision, SameTree, Pad, Height;
    if |leaves| <= 2 {
      forall ys | multiset(ys) == multiset(leaves)
        ensures ys != [] && Root(h, ys) == Root(h, leaves)
      {
        FewLeavesAnyOrder(h, leaves, ys);
      }
    } else {
      var k := Height(|leaves|);
      HeightIsLog(|leaves|);
      ExchangeMovesSiblings(leaves, k);
      RootsAgreeAtOneHeight(h, leaves, Exchanged(leaves));
    }
  }

  lemma OneOf(a: Bytes, ys: seq<Bytes>)
    requires multiset(ys) == multiset([a])
    ensures ys == [a]
  {
    assert |multiset(ys)| == |ys| == 1;
    assert ys == [ys[0]];
    assert ys[0] in multiset([a]);
  }

  lemma OneOfTwo(a: Bytes, b: Bytes, ys: seq<Bytes>)
    requires multiset(ys) == multiset([a, b])
    ensures ys == [a, b] || ys == [b, a]
  {
    assert |multiset(ys)| == |ys| == 2;
    assert ys == [ys[0], ys[1]];
    assert ys[0] in multiset([a, b]);
    assert multiset{ys[1]} == multiset(ys) - multiset{ys[0]} == multiset([a, b]) - multiset{ys[0]};
    if ys[0] == a {
      assert multiset([a, b]) - multiset{a} == multiset{b};
      assert ys[1] in multiset{b};
    } else {
      assert multiset([a, b]) - multiset{b} == multiset{a};
      assert ys[1] in multiset{a};
    }
  }

  lemma FewLeavesAnyOrder(h: Hash, xs: seq<Bytes>, ys: seq<Bytes>)
    requires 1 <= |xs| <= 2 && multiset(ys) == multiset(xs)
    ensures ys != [] && Root(h, ys) == Root(h, xs)
  {
    hide Root;
    if |xs| == 1 {
      assert xs == [xs[0]];
      OneOf(xs[0], ys);
    } else {
      assert xs == [xs[0], xs[1]];
      OneOfTwo(xs[0], xs[1], ys);
      PairSwap(h, xs[0], xs[1]);
    }
  }

  lemma PairSwap(h: Hash, a: Bytes, b: Bytes)
    ensures Root(h, [a, b]) == Root(h, [b, a])
  {
    hide Root, NextLevel, Combined;
    RootStep(h, [a, b]);
    RootStep(h, [b, a]);
    NextOfPair(h, a, b);
    NextOfPair(h, b, a);
    CombinedIsSymmetric(a, b);
  }

  /** Repeating the last leaf of an odd list leaves the root as it is: the root does not count leaves. */
  lemma RepeatedLastLeaf(h: Hash, leaves: seq<Bytes>)
    requires |leaves| % 2 == 1 && |leaves| >= 3
    ensures Root(h, leaves + [leaves[|leaves| - 1]]) == Root(h, leaves)
  {
    hide Combined, Root, NextLevel;
    var n := |leaves| - 1;
    var rest, last := leaves[..n], leaves[n];
    assert leaves == rest + [last] && leaves + [last] == rest + [last, last];
    NextLevelConcat(h, rest, [last]);
    NextLevelConcat(h, rest, [last, last]);
    NextOfOne(h, last);
    NextOfPair(h, last, last);
    RootStep(h, leaves);
    RootStep(h, leaves + [last]);
  }
}
