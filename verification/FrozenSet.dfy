/** The frozen set as an indexed Merkle tree (frontend/lib/freeze.ts): a sorted linked list of
    commitments between the head 0 and the tail `max`. */
module FrozenSet {
  import opened Wrappers
  import opened Hashing
  import opened MerkleTree
  import opened IncrementalTree

  datatype ImtLowLeaf = ImtLowLeaf(value: Fr, nextIndex: Fr, nextValue: Fr)

  datatype FreezeError = OutOfRange | AlreadyInSet | Frozen

  datatype NonMembershipWitness = NonMembershipWitness(low: ImtLowLeaf, path: MerklePath, root: Fr)

  function ImtLeafHash(h: Hash, l: ImtLowLeaf): Fr {
    h.five(l.value, l.nextIndex, l.nextValue, 0, 0)
  }

  // ----- the canonical node order -----

  ghost predicate StrictlySorted(s: seq<Fr>) {
    forall i, j :: 0 <= i < j < |s| ==> s[i] < s[j]
  }

  function InsertSorted(x: Fr, s: seq<Fr>): (r: seq<Fr>)
    ensures forall y :: y in r <==> y == x || y in s
  {
    if |s| == 0 || x < s[0] then [x] + s
    else if x == s[0] then s
    else
      assert s == [s[0]] + s[1..];
      [s[0]] + InsertSorted(x, s[1..])
  }

  lemma {:induction false} InsertSortedSorts(x: Fr, s: seq<Fr>)
    requires StrictlySorted(s)
    ensures StrictlySorted(InsertSorted(x, s))
  {
    if |s| > 0 && x > s[0] {
      var r := InsertSorted(x, s[1..]);
      InsertSortedSorts(x, s[1..]);
      forall i | 0 <= i < |r|
        ensures s[0] < r[i]
      {
        assert r[i] in r;
      }
    }
  }

  /** Deduplicated and ascending. */
  function SortedFrozen(cms: seq<Fr>): (r: seq<Fr>)
    ensures StrictlySorted(r)
    ensures forall y :: y in r <==> y in cms
  {
    if |cms| == 0 then []
    else
      var n := |cms| - 1;
      assert cms == cms[..n] + [cms[n]];
      InsertSortedSorts(cms[n], SortedFrozen(cms[..n]));
      InsertSorted(cms[n], SortedFrozen(cms[..n]))
  }

  /** The order is canonical: a set has one strictly sorted listing. */
  lemma {:induction false} SortedListingUnique(a: seq<Fr>, b: seq<Fr>)
    requires StrictlySorted(a) && StrictlySorted(b)
    requires forall y :: y in a <==> y in b
    ensures a == b
    decreases |a|
  {
    assert |a| > 0 ==> a[0] in b;
    assert |b| > 0 ==> b[0] in a;
    if |a| > 0 {
      forall y
        ensures y in a[1..] <==> y in b[1..]
      {
        assert y in a <==> y == a[0] || y in a[1..];
        assert y in b <==> y == b[0] || y in b[1..];
      }
      SortedListingUnique(a[1..], b[1..]);
    }
  }

  // ----- the linked list as tree leaves -----

  function ImtNode(sorted: seq<Fr>, max: Fr, i: nat): ImtLowLeaf
    requires i <= |sorted| + 1
  {
    if i == |sorted| + 1 then ImtLowLeaf(max, 0, 0)
    else ImtLowLeaf(if i == 0 then 0 else sorted[i - 1], i + 1, if i < |sorted| then sorted[i] else max)
  }

  function ImtLeaves(h: Hash, sorted: seq<Fr>, max: Fr): (r: seq<Fr>)
    ensures |r| == |sorted| + 2
    ensures forall i :: 0 <= i < |sorted| + 2 ==> r[i] == ImtLeafHash(h, ImtNode(sorted, max, i))
  {
    seq(|sorted| + 2, i requires 0 <= i < |sorted| + 2 => ImtLeafHash(h, ImtNode(sorted, max, i)))
  }

  // ----- the list is linked -----

  /** The leaves hash records that link to one another by index: the first leads to the second and so on, the
      values in order, and only the last links nowhere. */
  ghost predicate Linked(h: Hash, leaves: seq<Fr>, records: seq<ImtLowLeaf>, values: seq<Fr>) {
    && |leaves| == |records| == |values| > 0
    && (forall i {:trigger leaves[i]} :: 0 <= i < |leaves| ==>
          && leaves[i] == h.five(records[i].value, records[i].nextIndex, records[i].nextValue, 0, 0)
          && records[i].value == values[i])
    && (forall i {:trigger leaves[i]} :: 0 <= i < |leaves| - 1 ==>
          && records[i].nextIndex < |leaves|
          && records[records[i].nextIndex].value == records[i].nextValue)
    && Walk(records, 0, |records|) == values
    && (forall i {:trigger leaves[i]} :: 0 <= i < |leaves| ==> (records[i].nextIndex == 0 <==> i == |leaves| - 1))
    && records[|leaves| - 1].nextValue == 0
  }

  /** The values met from `at` on along the next pointers, for at most `steps` nodes. */
  function Walk(records: seq<ImtLowLeaf>, at: nat, steps: nat): seq<Fr>
    decreases steps
  {
    if steps == 0 || at >= |records| then []
    else if records[at].nextIndex == 0 then [records[at].value]
    else [records[at].value] + Walk(records, records[at].nextIndex, steps - 1)
  }

  lemma {:induction false} WalkVisitsAll(records: seq<ImtLowLeaf>, values: seq<Fr>, at: nat)
    requires at < |records| == |values| && forall i :: 0 <= i < |records| ==> records[i].value == values[i]
    requires forall i :: 0 <= i < |records| ==> records[i].nextIndex == if i == |records| - 1 then 0 else i + 1
    ensures Walk(records, at, |records| - at) == values[at..]
    decreases |records| - at
  {
    if at < |records| - 1 {
      WalkVisitsAll(records, values, at + 1);
    }
  }

  function Records(sorted: seq<Fr>, max: Fr): (r: seq<ImtLowLeaf>)
    ensures |r| == |sorted| + 2
    ensures forall i :: 0 <= i < |r| ==> r[i] == ImtNode(sorted, max, i)
  {
    seq(|sorted| + 2, i requires 0 <= i < |sorted| + 2 => ImtNode(sorted, max, i))
  }

  lemma NodeIsListed(sorted: seq<Fr>, max: Fr, i: nat)
    requires i <= |sorted| + 1
    ensures ImtNode(sorted, max, i).value == ([0] + sorted + [max])[i]
    ensures ImtNode(sorted, max, i).nextIndex == if i == |sorted| + 1 then 0 else i + 1
  {
  }

  lemma RecordsWalk(sorted: seq<Fr>, max: Fr)
    ensures Walk(Records(sorted, max), 0, |sorted| + 2) == [0] + sorted + [max]
  {
    var records, values := Records(sorted, max), [0] + sorted + [max];
    forall i | 0 <= i < |records|
      ensures records[i].value == values[i]
      ensures records[i].nextIndex == if i == |records| - 1 then 0 else i + 1
    {
      NodeIsListed(sorted, max, i);
    }
    WalkVisitsAll(records, values, 0);
    assert values[0..] == values;
  }

  /** The tree holds 0, the set in ascending order and the tail value, linked in that order. */
  ghost predicate IsLinkedList(h: Hash, leaves: seq<Fr>, sorted: seq<Fr>, max: Fr) {
    exists records :: Linked(h, leaves, records, [0] + sorted + [max])
  }

  lemma ImtIsLinked(h: Hash, sorted: seq<Fr>, max: Fr)
    ensures IsLinkedList(h, ImtLeaves(h, sorted, max), sorted, max)
  {
    RecordsWalk(sorted, max);
    assert Linked(h, ImtLeaves(h, sorted, max), Records(sorted, max), [0] + sorted + [max]);
  }

  /** The root is that of a tree over such a list. */
  ghost predicate RootsLinked(h: Hash, depth: nat, max: Fr, sorted: seq<Fr>, root: Fr) {
    exists leaves :: IsLinkedList(h, leaves, sorted, max) && root == Replay(h, depth, leaves).root
  }

  lemma ImtRootsLinked(h: Hash, depth: nat, max: Fr, sorted: seq<Fr>)
    ensures RootsLinked(h, depth, max, sorted, Replay(h, depth, ImtLeaves(h, sorted, max)).root)
  {
    ImtIsLinked(h, sorted, max);
  }

  function FrozenRoot(h: Hash, depth: nat, max: Fr, cms: seq<Fr>): Fr {
    Replay(h, depth, ImtLeaves(h, SortedFrozen(cms), max)).root
  }

  ghost predicate InRange(cms: seq<Fr>, max: Fr) {
    forall c :: c in cms ==> 0 < c < max
  }

  /** The list fits the tree: its head, its nodes and its tail. */
  ghost predicate Fits(cms: seq<Fr>, depth: nat) {
    |SortedFrozen(cms)| + 2 <= Pow2(depth)
  }

  // ----- what the circuit accepts as non-membership -----

  ghost predicate NonMember(
    h: Hash, depth: nat, root: Fr, target: Fr, low: ImtLowLeaf, siblings: seq<Fr>, bits: seq<bool>)
  {
    && low.value < target
    && (target < low.nextValue || low.nextValue == 0)
    && |siblings| == |bits| == depth
    && Fold(h, ImtLeafHash(h, low), siblings, bits) == root
  }

  /** Where the leaf of node i is found in the tree: the root is the node above the tail, so past capacity it
      reaches only the nodes that share the tail's block. */
  ghost predicate InTailBlock(cms: seq<Fr>, depth: nat, i: nat) {
    Shift(i, depth) == Shift(|SortedFrozen(cms)| + 1, depth)
  }

  lemma FittingListIsOneBlock(cms: seq<Fr>, depth: nat, i: nat)
    requires Fits(cms, depth) && i <= |SortedFrozen(cms)| + 1
    ensures InTailBlock(cms, depth, i)
  {
    ShiftZeroIsCapacity(i, depth);
    ShiftZeroIsCapacity(|SortedFrozen(cms)| + 1, depth);
  }

  /** What folds to the root is the hash of a node of the tail's block. */
  lemma RootOpensNode(
    h: Hash, depth: nat, max: Fr, cms: seq<Fr>, low: ImtLowLeaf, siblings: seq<Fr>, bits: seq<bool>)
    requires CollisionFree(h) && |siblings| == |bits| == depth
    requires Fold(h, ImtLeafHash(h, low), siblings, bits) == FrozenRoot(h, depth, max, cms)
    ensures var i := IndexOf(bits, Shift(|SortedFrozen(cms)| + 1, depth));
            && i <= |SortedFrozen(cms)| + 1 && low == ImtNode(SortedFrozen(cms), max, i)
            && InTailBlock(cms, depth, i)
  {
    var sorted := SortedFrozen(cms);
    var leaves := ImtLeaves(h, sorted, max);
    var k := Shift(|sorted| + 1, depth);
    ReplayInvariant(h, depth, leaves);
    PathOpensLeaf(h, leaves, ImtLeafHash(h, low), siblings, bits, k);
    AddressIsBelow(bits, k);
    LeafIsNode(h, sorted, max, low, IndexOf(bits, k));
  }

  lemma LeafIsNode(h: Hash, sorted: seq<Fr>, max: Fr, low: ImtLowLeaf, i: nat)
    requires CollisionFree(h) && ImtLeafHash(h, low) == LeafAt(ImtLeaves(h, sorted, max), i)
    ensures i <= |sorted| + 1 && low == ImtNode(sorted, max, i)
  {
    assert i < |ImtLeaves(h, sorted, max)|;
  }

  /** Soundness, for a list of any size: an accepted witness opens a node of the list, so its gap excludes the
      target from the set. Neither the padding nor the tail can be abused. */
  lemma NonMemberSound(
    h: Hash, depth: nat, max: Fr, cms: seq<Fr>, target: Fr, low: ImtLowLeaf, siblings: seq<Fr>, bits: seq<bool>)
    requires CollisionFree(h)
    requires 0 < max && InRange(cms, max)
    requires NonMember(h, depth, FrozenRoot(h, depth, max, cms), target, low, siblings, bits)
    ensures target !in cms && 0 < target && target != max
    ensures var i := IndexOf(bits, Shift(|SortedFrozen(cms)| + 1, depth));
            && i <= |SortedFrozen(cms)| + 1 && low == ImtNode(SortedFrozen(cms), max, i)
            && InTailBlock(cms, depth, i)
  {
    RootOpensNode(h, depth, max, cms, low, siblings, bits);
    GapExcludes(SortedFrozen(cms), max, IndexOf(bits, Shift(|SortedFrozen(cms)| + 1, depth)), target);
  }

  lemma GapExcludes(sorted: seq<Fr>, max: Fr, i: nat, target: Fr)
    requires StrictlySorted(sorted) && i <= |sorted| + 1
    requires 0 < max && forall c :: c in sorted ==> 0 < c < max
    requires var low := ImtNode(sorted, max, i);
             low.value < target && (target < low.nextValue || low.nextValue == 0)
    ensures target !in sorted && 0 < target && target != max
  {
    assert 0 < i <= |sorted| ==> sorted[i - 1] in sorted;
    assert i < |sorted| ==> sorted[i] in sorted;
    forall j | 0 <= j < |sorted|
      ensures sorted[j] != target
    {
      assert sorted[j] in sorted;
      assert i <= |sorted| ==> (j < i ==> j < i - 1 || sorted[j] == sorted[i - 1]);
    }
  }

  /** Where the search for the low leaf of `target` stops. */
  predicate IsLowIndex(sorted: seq<Fr>, target: Fr, i: nat) {
    && i <= |sorted|
    && (forall j :: 0 <= j < i ==> sorted[j] < target)
    && (i < |sorted| ==> sorted[i] >= target)
  }

  function LowIndex(sorted: seq<Fr>, target: Fr, from: nat): (i: nat)
    requires from <= |sorted| && forall j :: 0 <= j < from ==> sorted[j] < target
    ensures IsLowIndex(sorted, target, i)
    decreases |sorted| - from
  {
    if from == |sorted| || sorted[from] >= target then from else LowIndex(sorted, target, from + 1)
  }

  /** The path of a node of the tail's block folds to the root. */
  lemma NodeFoldsToRoot(h: Hash, depth: nat, max: Fr, cms: seq<Fr>, i: nat)
    requires i <= |SortedFrozen(cms)| + 1 && InTailBlock(cms, depth, i)
    ensures Fold(h, ImtLeafHash(h, ImtNode(SortedFrozen(cms), max, i)),
                 SiblingsOf(h, ImtLeaves(h, SortedFrozen(cms), max), depth, i), BitsOf(depth, i))
         == FrozenRoot(h, depth, max, cms)
  {
    var leaves := ImtLeaves(h, SortedFrozen(cms), max);
    ReplayInvariant(h, depth, leaves);
    PathFolds(h, leaves, i, SiblingsOf(h, leaves, depth, i), BitsOf(depth, i));
  }

  /** Completeness: for an absent target inside (0, max) the node at the low index is a witness, if the root
      reaches it. */
  lemma LowLeafIsWitness(h: Hash, depth: nat, max: Fr, cms: seq<Fr>, target: Fr, i: nat)
    requires target !in cms && 0 < target < max
    requires IsLowIndex(SortedFrozen(cms), target, i) && InTailBlock(cms, depth, i)
    ensures var leaves := ImtLeaves(h, SortedFrozen(cms), max);
            NonMember(h, depth, FrozenRoot(h, depth, max, cms), target, ImtNode(SortedFrozen(cms), max, i),
                      SiblingsOf(h, leaves, depth, i), BitsOf(depth, i))
  {
    NodeFoldsToRoot(h, depth, max, cms, i);
    LowNodeBrackets(SortedFrozen(cms), max, target, i);
  }

  lemma LowNodeBrackets(sorted: seq<Fr>, max: Fr, target: Fr, i: nat)
    requires target !in sorted && 0 < target < max && IsLowIndex(sorted, target, i)
    ensures var low := ImtNode(sorted, max, i);
            low.value < target < low.nextValue
  {
    assert i < |sorted| ==> sorted[i] in sorted;
  }

  /** A witness opens the node at the low index and no other. */
  lemma WitnessIsLowLeaf(sorted: seq<Fr>, max: Fr, target: Fr, i: nat, low: nat)
    requires StrictlySorted(sorted) && (forall c :: c in sorted ==> 0 < c < max) && target < max
    requires IsLowIndex(sorted, target, low) && i <= |sorted| + 1
    requires ImtNode(sorted, max, i).value < target && target !in sorted
    requires target < ImtNode(sorted, max, i).nextValue || ImtNode(sorted, max, i).nextValue == 0
    ensures i == low
  {
    assert forall j :: 0 <= j < |sorted| ==> sorted[j] in sorted;
  }

  /** Whether the root reaches the node that brackets the target. */
  ghost predicate Reached(cms: seq<Fr>, depth: nat, target: Fr) {
    InTailBlock(cms, depth, LowIndex(SortedFrozen(cms), target, 0))
  }

  lemma FittingListIsReached(cms: seq<Fr>, depth: nat, target: Fr)
    requires Fits(cms, depth)
    ensures Reached(cms, depth, target)
  {
    FittingListIsOneBlock(cms, depth, LowIndex(SortedFrozen(cms), target, 0));
  }

  lemma WitnessIsReached(
    h: Hash, depth: nat, max: Fr, cms: seq<Fr>, target: Fr, low: ImtLowLeaf, siblings: seq<Fr>, bits: seq<bool>, i: nat)
    requires CollisionFree(h)
    requires 0 < max && InRange(cms, max) && target <= max && IsLowIndex(SortedFrozen(cms), target, i)
    requires NonMember(h, depth, FrozenRoot(h, depth, max, cms), target, low, siblings, bits)
    ensures 0 < target < max && target !in cms && InTailBlock(cms, depth, i)
  {
    var sorted := SortedFrozen(cms);
    NonMemberSound(h, depth, max, cms, target, low, siblings, bits);
    WitnessIsLowLeaf(sorted, max, target, IndexOf(bits, Shift(|sorted| + 1, depth)), i);
  }

  /** Past the tail value the tail itself is a witness. */
  lemma TailIsWitness(h: Hash, depth: nat, max: Fr, cms: seq<Fr>, target: Fr)
    requires max < target
    ensures var i := |SortedFrozen(cms)| + 1;
            NonMember(h, depth, FrozenRoot(h, depth, max, cms), target, ImtNode(SortedFrozen(cms), max, i),
                      SiblingsOf(h, ImtLeaves(h, SortedFrozen(cms), max), depth, i), BitsOf(depth, i))
  {
    NodeFoldsToRoot(h, depth, max, cms, |SortedFrozen(cms)| + 1);
  }

  /** For a list of any size and every target, a witness exists exactly for the absent values strictly inside the
      range whose low node the root reaches, which is every one of them when the list fits the tree, and for what
      lies beyond the tail value. */
  lemma NonMembershipExact(h: Hash, depth: nat, max: Fr, cms: seq<Fr>, target: Fr)
    requires CollisionFree(h)
    requires 0 < max && InRange(cms, max)
    ensures (exists low, siblings, bits ::
               NonMember(h, depth, FrozenRoot(h, depth, max, cms), target, low, siblings, bits))
            <==> target > max || (0 < target < max && target !in cms && Reached(cms, depth, target))
    ensures Fits(cms, depth) ==> Reached(cms, depth, target)
  {
    var root := FrozenRoot(h, depth, max, cms);
    if target > max {
      TailIsWitness(h, depth, max, cms, target);
    } else if low, siblings, bits :| NonMember(h, depth, root, target, low, siblings, bits) {
      WitnessIsReached(h, depth, max, cms, target, low, siblings, bits, LowIndex(SortedFrozen(cms), target, 0));
    } else if 0 < target < max && target !in cms && Reached(cms, depth, target) {
      LowLeafIsWitness(h, depth, max, cms, target, LowIndex(SortedFrozen(cms), target, 0));
    }
    if Fits(cms, depth) {
      FittingListIsReached(cms, depth, target);
    }
  }

  /** The node at one place of the tail's block, if the list reaches that far. */
  function BlockNode(sorted: seq<Fr>, max: Fr, bits: seq<bool>): Option<ImtLowLeaf> {
    var i := IndexOf(bits, Shift(|sorted| + 1, |bits|));
    if i <= |sorted| + 1 then Some(ImtNode(sorted, max, i)) else None
  }

  lemma LeavesAreNodes(h: Hash, max: Fr, a: seq<Fr>, b: seq<Fr>, bits: seq<bool>)
    requires CollisionFree(h)
    ensures LeafAt(ImtLeaves(h, a, max), IndexOf(bits, Shift(|a| + 1, |bits|)))
         == LeafAt(ImtLeaves(h, b, max), IndexOf(bits, Shift(|b| + 1, |bits|)))
         <==> BlockNode(a, max, bits) == BlockNode(b, max, bits)
  {
    var i, j := IndexOf(bits, Shift(|a| + 1, |bits|)), IndexOf(bits, Shift(|b| + 1, |bits|));
    assert i <= |a| + 1 ==> LeafAt(ImtLeaves(h, a, max), i) == ImtLeafHash(h, ImtNode(a, max, i));
    assert j <= |b| + 1 ==> LeafAt(ImtLeaves(h, b, max), j) == ImtLeafHash(h, ImtNode(b, max, j));
  }

  /** The same nodes at the same places of the two tails' blocks. */
  ghost predicate SameBlock(a: seq<Fr>, b: seq<Fr>, max: Fr, depth: nat) {
    forall bits: seq<bool> :: |bits| == depth ==> BlockNode(a, max, bits) == BlockNode(b, max, bits)
  }

  lemma SameBlockExactly(h: Hash, depth: nat, max: Fr, a: seq<Fr>, b: seq<Fr>)
    requires CollisionFree(h)
    ensures SameBelow(ImtLeaves(h, a, max), ImtLeaves(h, b, max), depth, Shift(|a| + 1, depth), Shift(|b| + 1, depth))
            <==> SameBlock(a, b, max, depth)
  {
    forall bits: seq<bool> | |bits| == depth
      ensures LeafAt(ImtLeaves(h, a, max), IndexOf(bits, Shift(|a| + 1, depth)))
           == LeafAt(ImtLeaves(h, b, max), IndexOf(bits, Shift(|b| + 1, depth)))
           <==> BlockNode(a, max, bits) == BlockNode(b, max, bits)
    {
      LeavesAreNodes(h, max, a, b, bits);
    }
  }

  /** The node above the tail's block. */
  function TailNode(h: Hash, depth: nat, max: Fr, sorted: seq<Fr>): Fr {
    Node(h, ImtLeaves(h, sorted, max), depth, Shift(|sorted| + 1, depth))
  }

  lemma RootIsTailBlock(h: Hash, depth: nat, max: Fr, cms: seq<Fr>)
    ensures FrozenRoot(h, depth, max, cms) == TailNode(h, depth, max, SortedFrozen(cms))
  {
    ReplayInvariant(h, depth, ImtLeaves(h, SortedFrozen(cms), max));
  }

  /** What a root names, exactly, for lists of any size: the nodes of the tail's block. */
  lemma FrozenRootNamesBlock(h: Hash, depth: nat, max: Fr, a: seq<Fr>, b: seq<Fr>)
    requires CollisionFree(h)
    ensures FrozenRoot(h, depth, max, a) == FrozenRoot(h, depth, max, b) <==>
            SameBlock(SortedFrozen(a), SortedFrozen(b), max, depth)
  {
    var sa, sb := SortedFrozen(a), SortedFrozen(b);
    SameNodeSameBlock(h, depth, max, sa, sb);
    RootIsTailBlock(h, depth, max, a);
    RootIsTailBlock(h, depth, max, b);
  }

  lemma SameNodeSameBlock(h: Hash, depth: nat, max: Fr, a: seq<Fr>, b: seq<Fr>)
    requires CollisionFree(h)
    ensures TailNode(h, depth, max, a) == TailNode(h, depth, max, b) <==> SameBlock(a, b, max, depth)
  {
    var la, lb := ImtLeaves(h, a, max), ImtLeaves(h, b, max);
    NodesEqualExactly(h, la, lb, depth, Shift(|a| + 1, depth), Shift(|b| + 1, depth));
    SameBlockExactly(h, depth, max, a, b);
  }

  lemma HeadIsFirst(h: Hash, a: seq<Fr>, b: seq<Fr>, max: Fr, i: nat)
    requires CollisionFree(h) && ImtLeaves(h, a, max)[0] == LeafAt(ImtLeaves(h, b, max), i)
    ensures i == 0
  {
    assert i <= |b| + 1;
    assert ImtLeafHash(h, ImtNode(a, max, 0)) == ImtLeafHash(h, ImtNode(b, max, i));
  }

  /** The block that holds the root's leaf 0 is the first one. */
  lemma FirstBlock(bits: seq<bool>, k: nat)
    requires IndexOf(bits, k) == 0
    ensures k == 0
  {
    AddressIsBelow(bits, k);
    ShiftOfZero(|bits|);
  }

  /** A root of a list that fits is no root of one that does not. */
  lemma EqualRootsFit(h: Hash, depth: nat, max: Fr, a: seq<Fr>, b: seq<Fr>)
    requires CollisionFree(h) && Fits(a, depth)
    requires FrozenRoot(h, depth, max, a) == FrozenRoot(h, depth, max, b)
    ensures Fits(b, depth)
  {
    var sa, sb := SortedFrozen(a), SortedFrozen(b);
    var la, lb := ImtLeaves(h, sa, max), ImtLeaves(h, sb, max);
    var k := Shift(|sb| + 1, depth);
    assert Node(h, la, depth, Shift(0, depth)) == Node(h, lb, depth, k) by {
      ReplayInvariant(h, depth, la);
      ReplayInvariant(h, depth, lb);
      FittingListIsOneBlock(a, depth, 0);
    }
    SharedNodeSharesLeaf(h, la, lb, depth, 0, k);
    HeadIsFirst(h, sa, sb, max, IndexOf(BitsOf(depth, 0), k));
    FirstBlock(BitsOf(depth, 0), k);
    ShiftZeroIsCapacity(|sb| + 1, depth);
  }

  /** The root names the set: equal roots exactly for equal sets, whatever the order and repetitions, as soon
      as one of the two lists fits the tree. */
  lemma FrozenRootNamesSet(h: Hash, depth: nat, max: Fr, a: seq<Fr>, b: seq<Fr>)
    requires CollisionFree(h)
    requires Fits(a, depth) || Fits(b, depth)
    ensures FrozenRoot(h, depth, max, a) == FrozenRoot(h, depth, max, b) <==>
            forall c :: c in a <==> c in b
  {
    if forall c :: c in a <==> c in b {
      SortedListingUnique(SortedFrozen(a), SortedFrozen(b));
    } else if FrozenRoot(h, depth, max, a) == FrozenRoot(h, depth, max, b) {
      if Fits(a, depth) {
        EqualRootsFit(h, depth, max, a, b);
      } else {
        EqualRootsFit(h, depth, max, b, a);
      }
      EqualRootsEqualSets(h, depth, max, a, b);
    }
  }

  lemma EqualRootsEqualSets(h: Hash, depth: nat, max: Fr, a: seq<Fr>, b: seq<Fr>)
    requires CollisionFree(h) && Fits(a, depth) && Fits(b, depth)
    requires FrozenRoot(h, depth, max, a) == FrozenRoot(h, depth, max, b)
    ensures forall c :: c in a <==> c in b
  {
    var sa, sb := SortedFrozen(a), SortedFrozen(b);
    var la, lb := ImtLeaves(h, sa, max), ImtLeaves(h, sb, max);
    ReplayIsPerfect(h, depth, la);
    ReplayIsPerfect(h, depth, lb);
    RootBindsLeaves(h, depth, la, lb);
    assert LeafAt(la, |sa| + 1) == LeafAt(lb, |sa| + 1);
    assert LeafAt(la, |sb| + 1) == LeafAt(lb, |sb| + 1);
    assert |sa| == |sb|;
    forall i | 0 <= i < |sa|
      ensures sa[i] == sb[i]
    {
      assert LeafAt(la, i + 1) == LeafAt(lb, i + 1);
      assert ImtNode(sa, max, i + 1) == ImtNode(sb, max, i + 1);
    }
    assert sa == sb;
    forall c
      ensures c in a <==> c in b
    {
      assert c in sa <==> c in sb;
    }
  }

  /** No code checks that the list fits. When neither does, the root need not name the set: in a tree of two
      leaves every one-element set has the root of a tail that stands alone. */
  lemma OverfullRootNamesNothing(h: Hash, max: Fr, x: Fr, y: Fr)
    ensures FrozenRoot(h, 1, max, [x]) == FrozenRoot(h, 1, max, [y])
    ensures !Fits([x], 1) && !Fits([y], 1)
  {
    TailAlone(h, max, x);
    TailAlone(h, max, y);
  }

  lemma TailAlone(h: Hash, max: Fr, x: Fr)
    ensures FrozenRoot(h, 1, max, [x]) == h.two(ImtLeafHash(h, ImtLowLeaf(max, 0, 0)), EMPTY_LEAF)
    ensures !Fits([x], 1)
  {
    assert [x][..0] == [];
    assert SortedFrozen([x]) == [x];
    var leaves := ImtLeaves(h, [x], max);
    ReplayInvariant(h, 1, leaves);
    assert Shift(2, 1) == Shift(2, 0) / 2 == 1;
    assert Node(h, leaves, 1, 1) == h.two(Node(h, leaves, 0, 2), Node(h, leaves, 0, 3));
    assert Pow2(1) == 2 * Pow2(0);
  }

  // ----- the source's operations -----

  method BuildFrozenImt(h: Hash, depth: nat, max: Fr, sorted: seq<Fr>) returns (t: IncrementalMerkleTree)
    ensures fresh(t) && t.Valid() && t.hash == h && t.depth == depth
    ensures t.leaves == ImtLeaves(h, sorted, max)
    ensures IsLinkedList(h, t.leaves, sorted, max)
  {
    t := new IncrementalMerkleTree(h, depth);
    var at := t.Insert(ImtLeafHash(h, ImtLowLeaf(0, 1, if |sorted| > 0 then sorted[0] else max)));
    for i := 0 to |sorted|
      invariant t.Valid() && t.hash == h && t.depth == depth
      invariant t.leaves == ImtLeaves(h, sorted, max)[..i + 1]
    {
      var next := if i + 1 < |sorted| then sorted[i + 1] else max;
      at := t.Insert(ImtLeafHash(h, ImtLowLeaf(sorted[i], i + 2, next)));
    }
    at := t.Insert(ImtLeafHash(h, ImtLowLeaf(max, 0, 0)));
    assert t.leaves == ImtLeaves(h, sorted, max);
    ImtIsLinked(h, sorted, max);
  }

  method FrozenRootOf(h: Hash, depth: nat, max: Fr, cms: seq<Fr>) returns (root: Fr)
    ensures root == FrozenRoot(h, depth, max, cms)
    ensures RootsLinked(h, depth, max, SortedFrozen(cms), root)
    ensures Fits(cms, depth) ==>
              root == PerfectRoot(h, depth, ImtLeaves(h, SortedFrozen(cms), max))
  {
    var t := BuildFrozenImt(h, depth, max, SortedFrozen(cms));
    root := t.Root();
    if Fits(cms, depth) {
      ReplayIsPerfect(h, depth, t.leaves);
    }
    ImtRootsLinked(h, depth, max, SortedFrozen(cms));
  }

  method ComputeFreeze(h: Hash, depth: nat, max: Fr, current: seq<Fr>, cmTarget: Fr)
    returns (r: Result<(seq<Fr>, Fr), FreezeError>)
    ensures cmTarget <= 0 || cmTarget >= max ==> r == Failure(OutOfRange)
    ensures 0 < cmTarget < max && cmTarget in current ==> r == Failure(AlreadyInSet)
    ensures r.Success? <==> 0 < cmTarget < max && cmTarget !in current
    ensures r.Success? ==>
              && StrictlySorted(r.value.0)
              && (forall c :: c in r.value.0 <==> c in current || c == cmTarget)
              && r.value.1 == FrozenRoot(h, depth, max, current + [cmTarget])
              && RootsLinked(h, depth, max, r.value.0, r.value.1)
  {
    if cmTarget <= 0 || cmTarget >= max {
      return Failure(OutOfRange);
    }
    var sorted := SortedFrozen(current);
    if cmTarget in sorted {
      return Failure(AlreadyInSet);
    }
    var next := SortedFrozen(sorted + [cmTarget]);
    SortedListingUnique(next, SortedFrozen(current + [cmTarget]));
    var t := BuildFrozenImt(h, depth, max, next);
    var root := t.Root();
    ImtRootsLinked(h, depth, max, next);
    return Success((next, root));
  }

  /** Walk up while a node value is strictly below the target; the last such node is the low leaf. */
  method FindLow(sorted: seq<Fr>, max: Fr, target: Fr) returns (lowIdx: nat, low: ImtLowLeaf)
    ensures IsLowIndex(sorted, target, lowIdx) && low == ImtNode(sorted, max, lowIdx)
    ensures low.value == (if lowIdx == 0 then 0 else sorted[lowIdx - 1])
    ensures low.nextIndex == lowIdx + 1 && low.nextValue == (if lowIdx < |sorted| then sorted[lowIdx] else max)
  {
    lowIdx := 0;
    low := ImtLowLeaf(0, 1, if |sorted| > 0 then sorted[0] else max);
    var i := 0;
    while i < |sorted| && sorted[i] < target
      invariant lowIdx == i <= |sorted|
      invariant low == ImtNode(sorted, max, lowIdx)
      invariant forall j :: 0 <= j < i ==> sorted[j] < target
    {
      lowIdx := i + 1;
      low := ImtLowLeaf(sorted[i], i + 2, if i + 1 < |sorted| then sorted[i + 1] else max);
      i := i + 1;
    }
  }

  /** The witness at the low index works exactly strictly inside the range, if the root reaches that index. */
  lemma LowWitnessExact(h: Hash, depth: nat, max: Fr, cms: seq<Fr>, target: Fr, i: nat)
    requires CollisionFree(h) && 0 < max && InRange(cms, max)
    requires target !in cms && target <= max && IsLowIndex(SortedFrozen(cms), target, i)
    ensures var leaves := ImtLeaves(h, SortedFrozen(cms), max);
            NonMember(h, depth, FrozenRoot(h, depth, max, cms), target, ImtNode(SortedFrozen(cms), max, i),
                      SiblingsOf(h, leaves, depth, i), BitsOf(depth, i))
            <==> 0 < target < max && InTailBlock(cms, depth, i)
  {
    var sorted := SortedFrozen(cms);
    var leaves := ImtLeaves(h, sorted, max);
    var low, siblings, bits := ImtNode(sorted, max, i), SiblingsOf(h, leaves, depth, i), BitsOf(depth, i);
    if 0 < target < max && InTailBlock(cms, depth, i) {
      LowLeafIsWitness(h, depth, max, cms, target, i);
    } else if NonMember(h, depth, FrozenRoot(h, depth, max, cms), target, low, siblings, bits) {
      WitnessIsReached(h, depth, max, cms, target, low, siblings, bits, i);
    }
  }

  /** The low node of a target, its path and the live root. */
  method OpenLow(h: Hash, depth: nat, max: Fr, sorted: seq<Fr>, target: Fr) returns (w: NonMembershipWitness)
    ensures var i := w.path.leafIndex;
            && IsLowIndex(sorted, target, i) && w.low == ImtNode(sorted, max, i)
            && w.low.value == (if i == 0 then 0 else sorted[i - 1])
            && w.low.nextIndex == i + 1 && w.low.nextValue == (if i < |sorted| then sorted[i] else max)
            && w.path.siblings == SiblingsOf(h, ImtLeaves(h, sorted, max), depth, i)
            && w.path.pathBits == BitsOf(depth, i)
    ensures w.root == Replay(h, depth, ImtLeaves(h, sorted, max)).root && RootsLinked(h, depth, max, sorted, w.root)
  {
    var tree := BuildFrozenImt(h, depth, max, sorted);
    var lowIdx, low := FindLow(sorted, max, target);
    var path := PathInto(tree, lowIdx);
    var root := tree.Root();
    ImtRootsLinked(h, depth, max, sorted);
    w := NonMembershipWitness(low, path, root);
  }

  method PathInto(tree: IncrementalMerkleTree, i: nat) returns (path: MerklePath)
    requires tree.Valid() && i < |tree.leaves|
    ensures path == MerklePath(SiblingsOf(tree.hash, tree.leaves, tree.depth, i), BitsOf(tree.depth, i), i)
  {
    var r := tree.InclusionPath(i);
    PathIsRead(tree.hash, tree.leaves, i, r.value.siblings, r.value.pathBits);
    return r.value;
  }

  lemma LowWitnessWorks(h: Hash, depth: nat, max: Fr, cms: seq<Fr>, target: Fr, i: nat)
    requires target !in cms && IsLowIndex(SortedFrozen(cms), target, i)
    ensures CollisionFree(h) && 0 < max && target <= max && InRange(cms, max) ==>
              (NonMember(h, depth, FrozenRoot(h, depth, max, cms), target, ImtNode(SortedFrozen(cms), max, i),
                         SiblingsOf(h, ImtLeaves(h, SortedFrozen(cms), max), depth, i), BitsOf(depth, i))
               <==> 0 < target < max && InTailBlock(cms, depth, i))
    ensures Fits(cms, depth) ==> InTailBlock(cms, depth, i)
  {
    if CollisionFree(h) && 0 < max && target <= max && InRange(cms, max) {
      LowWitnessExact(h, depth, max, cms, target, i);
    }
    if Fits(cms, depth) {
      FittingListIsOneBlock(cms, depth, i);
    }
  }

  /** Fails exactly on members, for every list. What it returns is the node the walk stops at, its path and
      the live root; when the list is one the issuer can have built, the circuit accepts that as a witness
      exactly when the value lies strictly inside the range and the root reaches the node. */
  method FrozenNonMembership(h: Hash, depth: nat, max: Fr, current: seq<Fr>, cmSpend: Fr)
    returns (r: Result<NonMembershipWitness, FreezeError>)
    ensures cmSpend in current <==> r == Failure(Frozen)
    ensures r.Failure? ==> r.error == Frozen
    ensures r.Success? ==>
              && var sorted := SortedFrozen(current);
              && var i := r.value.path.leafIndex;
              && IsLowIndex(sorted, cmSpend, i) && r.value.low == ImtNode(sorted, max, i)
              && r.value.low.value == (if i == 0 then 0 else sorted[i - 1])
              && r.value.low.nextIndex == i + 1
              && r.value.low.nextValue == (if i < |sorted| then sorted[i] else max)
              && r.value.path.siblings == SiblingsOf(h, ImtLeaves(h, sorted, max), depth, i)
              && r.value.path.pathBits == BitsOf(depth, i)
              && r.value.root == FrozenRoot(h, depth, max, current)
              && RootsLinked(h, depth, max, sorted, r.value.root)
    ensures r.Success? && CollisionFree(h) && 0 < max && cmSpend <= max && InRange(current, max) ==>
              (NonMember(h, depth, r.value.root, cmSpend, r.value.low, r.value.path.siblings, r.value.path.pathBits)
               <==> 0 < cmSpend < max && InTailBlock(current, depth, r.value.path.leafIndex))
    ensures r.Success? && Fits(current, depth) ==> InTailBlock(current, depth, r.value.path.leafIndex)
  {
    var sorted := SortedFrozen(current);
    if cmSpend in sorted {
      return Failure(Frozen);
    }
    var w := OpenLow(h, depth, max, sorted, cmSpend);
    LowWitnessWorks(h, depth, max, current, cmSpend, w.path.leafIndex);
    return Success(w);
  }
}
