/** The perfect binary tree over a leaf list padded with empty leaves: the object every incremental
    algorithm of sdk/src/merkle.ts must agree with. */
module MerkleTree {
  import opened Hashing

  const EMPTY_LEAF: Fr := 0

  function Pow2(n: nat): (r: nat)
    ensures r > 0
  {
    if n == 0 then 1 else 2 * Pow2(n - 1)
  }

  /** Root of an all-empty subtree of the given height. */
  function Zero(h: Hash, level: nat): Fr {
    if level == 0 then EMPTY_LEAF else h.two(Zero(h, level - 1), Zero(h, level - 1))
  }

  function LeafAt(leaves: seq<Fr>, k: nat): Fr {
    if k < |leaves| then leaves[k] else EMPTY_LEAF
  }

  /** The k-th node, from the left, at the given height. */
  function Node(h: Hash, leaves: seq<Fr>, level: nat, k: nat): Fr
    decreases level
  {
    if level == 0 then LeafAt(leaves, k)
    else h.two(Node(h, leaves, level - 1, 2 * k), Node(h, leaves, level - 1, 2 * k + 1))
  }

  function PerfectRoot(h: Hash, depth: nat, leaves: seq<Fr>): Fr {
    Node(h, leaves, depth, 0)
  }

  /** The position, at the given height, of the node above leaf n: n halved `level` times. */
  function Shift(n: nat, level: nat): nat {
    if level == 0 then n else Shift(n, level - 1) / 2
  }

  /** m doubled `level` times. */
  function ShiftUp(m: nat, level: nat): nat
    decreases level
  {
    if level == 0 then m else ShiftUp(2 * m, level - 1)
  }

  lemma {:induction false} ShiftGalois(n: nat, level: nat, m: nat)
    ensures Shift(n, level) < m <==> n < ShiftUp(m, level)
    decreases level
  {
    if level > 0 {
      ShiftGalois(n, level - 1, 2 * m);
    }
  }

  lemma {:induction false} ShiftUpDoubles(m: nat, level: nat)
    ensures ShiftUp(2 * m, level) == 2 * ShiftUp(m, level)
    decreases level
  {
    if level > 0 {
      ShiftUpDoubles(2 * m, level - 1);
    }
  }

  lemma {:induction false} ShiftUpIsPow2(level: nat)
    ensures ShiftUp(1, level) == Pow2(level)
  {
    if level > 0 {
      ShiftUpIsPow2(level - 1);
      ShiftUpDoubles(1, level - 1);
    }
  }

  lemma ShiftZeroIsCapacity(n: nat, depth: nat)
    ensures Shift(n, depth) == 0 <==> n < Pow2(depth)
  {
    ShiftGalois(n, depth, 1);
    ShiftUpIsPow2(depth);
  }

  lemma {:induction false} ShiftSuccessor(n: nat, level: nat)
    ensures Shift(n + 1, level) == Shift(n, level) || Shift(n + 1, level) == Shift(n, level) + 1
  {
    if level > 0 {
      ShiftSuccessor(n, level - 1);
    }
  }

  /** A node strictly to the right of every real leaf is an empty subtree. */
  lemma {:induction false} NodeRightOfLeavesIsZero(h: Hash, leaves: seq<Fr>, n: nat, level: nat, k: nat)
    requires |leaves| <= n + 1
    requires Shift(n, level) < k
    ensures Node(h, leaves, level, k) == Zero(h, level)
    decreases level
  {
    if level > 0 {
      NodeRightOfLeavesIsZero(h, leaves, n, level - 1, 2 * k);
      NodeRightOfLeavesIsZero(h, leaves, n, level - 1, 2 * k + 1);
    }
  }

  /** A node depends only on the leaves below it. */
  lemma {:induction false} NodeFrame(h: Hash, a: seq<Fr>, b: seq<Fr>, level: nat, k: nat)
    requires forall j: nat :: Shift(j, level) == k ==> LeafAt(a, j) == LeafAt(b, j)
    ensures Node(h, a, level, k) == Node(h, b, level, k)
    decreases level
  {
    if level == 0 {
      assert Shift(k, 0) == k;
    } else {
      forall j: nat | Shift(j, level - 1) == 2 * k || Shift(j, level - 1) == 2 * k + 1
        ensures LeafAt(a, j) == LeafAt(b, j)
      {
        assert Shift(j, level) == k;
      }
      NodeFrame(h, a, b, level - 1, 2 * k);
      NodeFrame(h, a, b, level - 1, 2 * k + 1);
    }
  }

  // ----- authentication paths -----

  /** Hash a leaf up its path; bit true means the running node is the right child. */
  function Fold(h: Hash, leaf: Fr, siblings: seq<Fr>, bits: seq<bool>): Fr
    requires |siblings| == |bits|
  {
    if |bits| == 0 then leaf
    else
      var n := |bits| - 1;
      var cur := Fold(h, leaf, siblings[..n], bits[..n]);
      if bits[n] then h.two(siblings[n], cur) else h.two(cur, siblings[n])
  }

  /** The leaf position a path addresses below node k: the bits are its binary digits, lowest first. */
  function IndexOf(bits: seq<bool>, k: nat): nat {
    if |bits| == 0 then k
    else
      var n := |bits| - 1;
      IndexOf(bits[..n], 2 * k + if bits[n] then 1 else 0)
  }

  function Sibling(k: nat): nat {
    if k % 2 == 1 then k - 1 else k + 1
  }

  /** The path of leaf i, read off the perfect tree. */
  ghost predicate IsPathOf(h: Hash, leaves: seq<Fr>, i: nat, siblings: seq<Fr>, bits: seq<bool>) {
    && |siblings| == |bits|
    && (forall d :: 0 <= d < |bits| ==> bits[d] == (Shift(i, d) % 2 == 1))
    && (forall d :: 0 <= d < |bits| ==> siblings[d] == Node(h, leaves, d, Sibling(Shift(i, d))))
  }

  function SiblingsOf(h: Hash, leaves: seq<Fr>, depth: nat, i: nat): seq<Fr> {
    seq(depth, d requires d >= 0 => Node(h, leaves, d, Sibling(Shift(i, d))))
  }

  function BitsOf(depth: nat, i: nat): seq<bool> {
    seq(depth, d requires d >= 0 => Shift(i, d) % 2 == 1)
  }

  /** There is one path of each length. */
  lemma PathIsRead(h: Hash, leaves: seq<Fr>, i: nat, siblings: seq<Fr>, bits: seq<bool>)
    requires IsPathOf(h, leaves, i, siblings, bits)
    ensures siblings == SiblingsOf(h, leaves, |bits|, i) && bits == BitsOf(|bits|, i)
  {
  }

  lemma NodeAbove(h: Hash, leaves: seq<Fr>, level: nat, k: nat)
    ensures Node(h, leaves, level + 1, k / 2) ==
            if k % 2 == 1 then h.two(Node(h, leaves, level, k - 1), Node(h, leaves, level, k))
            else h.two(Node(h, leaves, level, k), Node(h, leaves, level, k + 1))
  {
    assert k == 2 * (k / 2) || k == 2 * (k / 2) + 1;
  }

  lemma {:induction false} BitsAddress(i: nat, bits: seq<bool>)
    requires forall d :: 0 <= d < |bits| ==> bits[d] == (Shift(i, d) % 2 == 1)
    ensures IndexOf(bits, Shift(i, |bits|)) == i
    decreases |bits|
  {
    if |bits| > 0 {
      var n := |bits| - 1;
      BitsAddress(i, bits[..n]);
      assert Shift(i, n) == 2 * Shift(i, n + 1) + if bits[n] then 1 else 0;
    }
  }

  /** One level up: a node and its sibling hash to the node above. */
  lemma FoldAscends(h: Hash, leaves: seq<Fr>, level: nat, k: nat, sibling: Fr, bit: bool)
    requires sibling == Node(h, leaves, level, Sibling(k)) && bit == (k % 2 == 1)
    ensures Node(h, leaves, level + 1, k / 2) ==
            if bit then h.two(sibling, Node(h, leaves, level, k)) else h.two(Node(h, leaves, level, k), sibling)
  {
    NodeAbove(h, leaves, level, k);
  }

  lemma PathGrows(h: Hash, leaves: seq<Fr>, i: nat, siblings: seq<Fr>, bits: seq<bool>, sibling: Fr, bit: bool)
    requires IsPathOf(h, leaves, i, siblings, bits)
    requires bit == (Shift(i, |bits|) % 2 == 1) && sibling == Node(h, leaves, |bits|, Sibling(Shift(i, |bits|)))
    ensures IsPathOf(h, leaves, i, siblings + [sibling], bits + [bit])
  {
  }

  lemma PathPrefix(h: Hash, leaves: seq<Fr>, i: nat, siblings: seq<Fr>, bits: seq<bool>, n: nat)
    requires IsPathOf(h, leaves, i, siblings, bits) && n <= |bits|
    ensures IsPathOf(h, leaves, i, siblings[..n], bits[..n])
  {
  }

  lemma {:induction false} SiblingsFold(h: Hash, leaves: seq<Fr>, i: nat, siblings: seq<Fr>, bits: seq<bool>)
    requires IsPathOf(h, leaves, i, siblings, bits)
    ensures Fold(h, LeafAt(leaves, i), siblings, bits) == Node(h, leaves, |bits|, Shift(i, |bits|))
    decreases |bits|
  {
    if |bits| > 0 {
      var n := |bits| - 1;
      PathPrefix(h, leaves, i, siblings, bits, n);
      SiblingsFold(h, leaves, i, siblings[..n], bits[..n]);
      FoldAscends(h, leaves, n, Shift(i, n), siblings[n], bits[n]);
    }
  }

  /** Completeness: the path of leaf i folds to the node above leaf i, and its bits address i. */
  lemma {:induction false} PathFolds(h: Hash, leaves: seq<Fr>, i: nat, siblings: seq<Fr>, bits: seq<bool>)
    requires IsPathOf(h, leaves, i, siblings, bits)
    ensures Fold(h, LeafAt(leaves, i), siblings, bits) == Node(h, leaves, |bits|, Shift(i, |bits|))
    ensures IndexOf(bits, Shift(i, |bits|)) == i
  {
    SiblingsFold(h, leaves, i, siblings, bits);
    BitsAddress(i, bits);
  }

  /** One level down: the running node below the last sibling is the matching child. */
  lemma FoldDescends(h: Hash, leaves: seq<Fr>, cur: Fr, sibling: Fr, bit: bool, level: nat, k: nat)
    requires CollisionFree(h) && level > 0
    requires Node(h, leaves, level, k) == if bit then h.two(sibling, cur) else h.two(cur, sibling)
    ensures cur == Node(h, leaves, level - 1, 2 * k + if bit then 1 else 0)
  {
  }

  /** Soundness: whatever folds to a node of the tree is the padded leaf its bits address. */
  lemma {:induction false} PathOpensLeaf(
    h: Hash, leaves: seq<Fr>, leaf: Fr, siblings: seq<Fr>, bits: seq<bool>, k: nat)
    requires CollisionFree(h)
    requires |siblings| == |bits|
    requires Fold(h, leaf, siblings, bits) == Node(h, leaves, |bits|, k)
    ensures leaf == LeafAt(leaves, IndexOf(bits, k))
    decreases |bits|
  {
    if |bits| > 0 {
      var n := |bits| - 1;
      var child := 2 * k + if bits[n] then 1 else 0;
      FoldDescends(h, leaves, Fold(h, leaf, siblings[..n], bits[..n]), siblings[n], bits[n], |bits|, k);
      PathOpensLeaf(h, leaves, leaf, siblings[..n], bits[..n], child);
    }
  }

  /** A node that two trees share determines the leaves below it: the path of a leaf in one tree opens the
      leaf at the same offset in the other. */
  lemma SharedNodeSharesLeaf(h: Hash, a: seq<Fr>, b: seq<Fr>, level: nat, j: nat, k: nat)
    requires CollisionFree(h)
    requires Node(h, a, level, Shift(j, level)) == Node(h, b, level, k)
    ensures LeafAt(a, j) == LeafAt(b, IndexOf(BitsOf(level, j), k))
  {
    var siblings, bits := SiblingsOf(h, a, level, j), BitsOf(level, j);
    PathFolds(h, a, j, siblings, bits);
    PathOpensLeaf(h, b, LeafAt(a, j), siblings, bits, k);
  }

  lemma NodeBindsLeaves(h: Hash, a: seq<Fr>, b: seq<Fr>, level: nat, j: nat)
    requires CollisionFree(h)
    requires Node(h, a, level, Shift(j, level)) == Node(h, b, level, Shift(j, level))
    ensures LeafAt(a, j) == LeafAt(b, j)
  {
    SharedNodeSharesLeaf(h, a, b, level, j, Shift(j, level));
    BitsAddress(j, BitsOf(level, j));
  }

  /** The same leaves in the same places below node k of one tree and node m of another. */
  ghost predicate SameBelow(a: seq<Fr>, b: seq<Fr>, level: nat, k: nat, m: nat) {
    forall bits: seq<bool> :: |bits| == level ==> LeafAt(a, IndexOf(bits, k)) == LeafAt(b, IndexOf(bits, m))
  }

  function Child(k: nat, bit: bool): nat {
    2 * k + if bit then 1 else 0
  }

  lemma SameBelowChild(a: seq<Fr>, b: seq<Fr>, level: nat, k: nat, m: nat, bit: bool)
    requires level > 0 && SameBelow(a, b, level, k, m)
    ensures SameBelow(a, b, level - 1, Child(k, bit), Child(m, bit))
  {
    forall bits: seq<bool> | |bits| == level - 1
      ensures LeafAt(a, IndexOf(bits, Child(k, bit))) == LeafAt(b, IndexOf(bits, Child(m, bit)))
    {
      assert (bits + [bit])[..level - 1] == bits;
      assert LeafAt(a, IndexOf(bits + [bit], k)) == LeafAt(b, IndexOf(bits + [bit], m));
    }
  }

  lemma SameBelowJoins(a: seq<Fr>, b: seq<Fr>, level: nat, k: nat, m: nat)
    requires level > 0 && forall bit :: SameBelow(a, b, level - 1, Child(k, bit), Child(m, bit))
    ensures SameBelow(a, b, level, k, m)
  {
    forall bits: seq<bool> | |bits| == level
      ensures LeafAt(a, IndexOf(bits, k)) == LeafAt(b, IndexOf(bits, m))
    {
      var n := level - 1;
      assert SameBelow(a, b, n, Child(k, bits[n]), Child(m, bits[n]));
      assert IndexOf(bits, k) == IndexOf(bits[..n], Child(k, bits[n]));
      assert IndexOf(bits, m) == IndexOf(bits[..n], Child(m, bits[n]));
    }
  }

  lemma NodeOfChildren(h: Hash, leaves: seq<Fr>, level: nat, k: nat)
    requires level > 0
    ensures Node(h, leaves, level, k)
         == h.two(Node(h, leaves, level - 1, Child(k, false)), Node(h, leaves, level - 1, Child(k, true)))
  {
  }

  /** With a collision-free hash two nodes are equal exactly when all leaves below them are. */
  lemma {:induction false} NodesEqualExactly(h: Hash, a: seq<Fr>, b: seq<Fr>, level: nat, k: nat, m: nat)
    requires CollisionFree(h)
    ensures Node(h, a, level, k) == Node(h, b, level, m) <==> SameBelow(a, b, level, k, m)
    decreases level
  {
    if level == 0 {
      assert IndexOf([], k) == k && IndexOf([], m) == m;
    } else {
      forall bit
        ensures Node(h, a, level - 1, Child(k, bit)) == Node(h, b, level - 1, Child(m, bit)) <==>
                SameBelow(a, b, level - 1, Child(k, bit), Child(m, bit))
      {
        NodesEqualExactly(h, a, b, level - 1, Child(k, bit), Child(m, bit));
      }
      NodeOfChildren(h, a, level, k);
      NodeOfChildren(h, b, level, m);
      if SameBelow(a, b, level, k, m) {
        SameBelowChild(a, b, level, k, m, false);
        SameBelowChild(a, b, level, k, m, true);
      } else if Node(h, a, level, k) == Node(h, b, level, m) {
        assert SameBelow(a, b, level - 1, Child(k, false), Child(m, false));
        assert SameBelow(a, b, level - 1, Child(k, true), Child(m, true));
        SameBelowJoins(a, b, level, k, m);
      }
    }
  }

  /** The leaf a path addresses below node k lies below node k. */
  lemma {:induction false} AddressIsBelow(bits: seq<bool>, k: nat)
    ensures Shift(IndexOf(bits, k), |bits|) == k
    decreases |bits|
  {
    if |bits| > 0 {
      var n := |bits| - 1;
      AddressIsBelow(bits[..n], 2 * k + if bits[n] then 1 else 0);
    }
  }

  /** Within capacity, equal roots mean equal leaf lists up to trailing empty leaves. */
  lemma RootBindsLeaves(h: Hash, depth: nat, a: seq<Fr>, b: seq<Fr>)
    requires CollisionFree(h)
    requires |a| <= Pow2(depth) && |b| <= Pow2(depth)
    ensures PerfectRoot(h, depth, a) == PerfectRoot(h, depth, b) <==>
            forall j: nat :: LeafAt(a, j) == LeafAt(b, j)
  {
    if PerfectRoot(h, depth, a) == PerfectRoot(h, depth, b) {
      forall j: nat
        ensures LeafAt(a, j) == LeafAt(b, j)
      {
        ShiftZeroIsCapacity(j, depth);
        if j < Pow2(depth) {
          NodeBindsLeaves(h, a, b, depth, j);
        }
      }
    } else if forall j: nat :: LeafAt(a, j) == LeafAt(b, j) {
      NodeFrame(h, a, b, depth, 0);
    }
  }
}
