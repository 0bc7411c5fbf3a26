/** The filled-subtree frontier and the append-only tree of sdk/src/merkle.ts, proved against the
    padded perfect tree. */
module IncrementalTree {
  import opened Wrappers
  import opened Hashing
  import opened MerkleTree

  datatype TreeState = TreeState(frontier: seq<Fr>, root: Fr)

  datatype MerklePath = MerklePath(siblings: seq<Fr>, pathBits: seq<bool>, leafIndex: nat)

  datatype TreeError = FrontierLength | NoLeaves | IndexOutOfRange | PathLength

  // ----- the incremental insert, level by level -----

  /** Climb from `level` to the top of frontier f with the running node cur at position idx. */
  function Climb(h: Hash, f: seq<Fr>, idx: nat, cur: Fr, level: nat): (r: TreeState)
    requires level <= |f|
    ensures |r.frontier| == |f|
    decreases |f| - level
  {
    if level == |f| then TreeState(f, cur)
    else if idx % 2 == 0 then Climb(h, f[level := cur], idx / 2, h.two(cur, Zero(h, level)), level + 1)
    else Climb(h, f, idx / 2, h.two(f[level], cur), level + 1)
  }

  function Insert(h: Hash, frontier: seq<Fr>, index: nat, leaf: Fr): TreeState {
    Climb(h, frontier, index, leaf, 0)
  }

  /** Insert `leaves` one after another from `index` on; `root` stands when there are none. */
  function InsertAll(h: Hash, t: TreeState, index: nat, leaves: seq<Fr>): (r: TreeState)
    ensures |r.frontier| == |t.frontier|
    decreases |leaves|
  {
    if |leaves| == 0 then t
    else
      var n := |leaves| - 1;
      Insert(h, InsertAll(h, t, index, leaves[..n]).frontier, index + n, leaves[n])
  }

  function Zeros(h: Hash, depth: nat): (r: seq<Fr>)
    ensures |r| == depth
    ensures forall i :: 0 <= i < depth ==> r[i] == Zero(h, i)
  {
    seq(depth, i requires i >= 0 => Zero(h, i))
  }

  function EmptyTree(h: Hash, depth: nat): TreeState {
    TreeState(Zeros(h, depth), Zero(h, depth))
  }

  /** The state of the tree that holds `leaves`. */
  function Replay(h: Hash, depth: nat, leaves: seq<Fr>): (r: TreeState)
    ensures |r.frontier| == depth
  {
    InsertAll(h, EmptyTree(h, depth), 0, leaves)
  }

  lemma {:induction false} InsertAllConcat(h: Hash, t: TreeState, index: nat, a: seq<Fr>, b: seq<Fr>)
    ensures InsertAll(h, t, index, a + b) == InsertAll(h, InsertAll(h, t, index, a), index + |a|, b)
    decreases |b|
  {
    if |b| == 0 {
      assert a + b == a;
    } else {
      var n := |b| - 1;
      assert (a + b)[..|a| + n] == a + b[..n];
      InsertAllConcat(h, t, index, a, b[..n]);
    }
  }

  lemma InsertAllOne(h: Hash, t: TreeState, index: nat, leaf: Fr)
    ensures InsertAll(h, t, index, [leaf]) == Insert(h, t.frontier, index, leaf)
  {
    assert [leaf][..0] == [];
  }

  // ----- the frontier invariant -----

  /** Wherever bit `level` of the leaf count is 1, the frontier holds the root of the completed left
      subtree at that level. The other slots are dead. */
  ghost predicate FrontierOk(h: Hash, leaves: seq<Fr>, f: seq<Fr>) {
    forall level :: 0 <= level < |f| && Shift(|leaves|, level) % 2 == 1 ==>
                      f[level] == Node(h, leaves, level, Shift(|leaves|, level) - 1)
  }

  /** Mid-climb: below `level` the frontier already fits the longer list, from `level` on it still
      fits the shorter one. */
  ghost predicate MidClimb(h: Hash, leaves: seq<Fr>, leaf: Fr, f: seq<Fr>, level: nat) {
    && (forall l :: 0 <= l < level && l < |f| && Shift(|leaves| + 1, l) % 2 == 1 ==>
                      f[l] == Node(h, leaves + [leaf], l, Shift(|leaves| + 1, l) - 1))
    && (forall l :: level <= l < |f| && Shift(|leaves|, l) % 2 == 1 ==>
                      f[l] == Node(h, leaves, l, Shift(|leaves|, l) - 1))
  }

  /** Appending a leaf changes only the nodes above it. */
  lemma AppendKeepsOtherNodes(h: Hash, leaves: seq<Fr>, leaf: Fr, level: nat, k: nat)
    requires k != Shift(|leaves|, level)
    ensures Node(h, leaves + [leaf], level, k) == Node(h, leaves, level, k)
  {
    NodeFrame(h, leaves, leaves + [leaf], level, k);
  }

  /** The state of the climb at one level: the running node is the node above the new leaf. */
  ghost predicate Climbing(h: Hash, leaves: seq<Fr>, leaf: Fr, f: seq<Fr>, cur: Fr, level: nat) {
    && level <= |f|
    && cur == Node(h, leaves + [leaf], level, Shift(|leaves|, level))
    && MidClimb(h, leaves, leaf, f, level)
  }

  /** Where the climb arrives. */
  ghost predicate Climbed(h: Hash, leaves: seq<Fr>, leaf: Fr, depth: nat, r: TreeState) {
    && FrontierOk(h, leaves + [leaf], r.frontier)
    && r.root == Node(h, leaves + [leaf], depth, Shift(|leaves|, depth))
  }

  /** To the right of the new leaf everything is empty. */
  lemma RightSiblingIsEmpty(h: Hash, leaves: seq<Fr>, leaf: Fr, level: nat)
    requires Shift(|leaves|, level) % 2 == 0
    ensures Node(h, leaves + [leaf], level + 1, Shift(|leaves|, level) / 2) ==
            h.two(Node(h, leaves + [leaf], level, Shift(|leaves|, level)), Zero(h, level))
  {
    var k := Shift(|leaves|, level);
    NodeAbove(h, leaves + [leaf], level, k);
    NodeRightOfLeavesIsZero(h, leaves + [leaf], |leaves|, level, k + 1);
  }

  /** The running node becomes the filled subtree of its level. */
  lemma LeftFillsSlot(h: Hash, leaves: seq<Fr>, leaf: Fr, f: seq<Fr>, cur: Fr, level: nat)
    requires level < |f| && Shift(|leaves|, level) % 2 == 0 && MidClimb(h, leaves, leaf, f, level)
    requires cur == Node(h, leaves + [leaf], level, Shift(|leaves|, level))
    ensures MidClimb(h, leaves, leaf, f[level := cur], level + 1)
  {
    ShiftSuccessor(|leaves|, level);
  }

  /** A left child: fill the slot, hash with the empty right sibling. */
  lemma ClimbLeft(h: Hash, leaves: seq<Fr>, leaf: Fr, f: seq<Fr>, cur: Fr, level: nat)
    requires Climbing(h, leaves, leaf, f, cur, level) && level < |f| && Shift(|leaves|, level) % 2 == 0
    ensures Climbing(h, leaves, leaf, f[level := cur], h.two(cur, Zero(h, level)), level + 1)
  {
    LeftFillsSlot(h, leaves, leaf, f, cur, level);
    RightSiblingIsEmpty(h, leaves, leaf, level);
  }

  /** The stored left subtree is untouched by the new leaf. */
  lemma LeftSubtreeStands(h: Hash, leaves: seq<Fr>, leaf: Fr, f: seq<Fr>, level: nat)
    requires level < |f| && Shift(|leaves|, level) % 2 == 1 && MidClimb(h, leaves, leaf, f, level)
    ensures f[level] == Node(h, leaves + [leaf], level, Shift(|leaves|, level) - 1)
  {
    AppendKeepsOtherNodes(h, leaves, leaf, level, Shift(|leaves|, level) - 1);
  }

  /** Either the bit of the count stays and its slot with it, or a carry clears it and the slot is dead. */
  lemma SlotStandsOrDies(h: Hash, leaves: seq<Fr>, leaf: Fr, f: seq<Fr>, level: nat)
    requires level < |f| && Shift(|leaves|, level) % 2 == 1 && MidClimb(h, leaves, leaf, f, level)
    requires f[level] == Node(h, leaves + [leaf], level, Shift(|leaves|, level) - 1)
    ensures MidClimb(h, leaves, leaf, f, level + 1)
  {
    ShiftSuccessor(|leaves|, level);
  }

  /** A right child: hash the stored left subtree with the running node. */
  lemma ClimbRight(h: Hash, leaves: seq<Fr>, leaf: Fr, f: seq<Fr>, cur: Fr, level: nat)
    requires Climbing(h, leaves, leaf, f, cur, level) && level < |f| && Shift(|leaves|, level) % 2 == 1
    ensures Climbing(h, leaves, leaf, f, h.two(f[level], cur), level + 1)
  {
    LeftSubtreeStands(h, leaves, leaf, f, level);
    SlotStandsOrDies(h, leaves, leaf, f, level);
    NodeAbove(h, leaves + [leaf], level, Shift(|leaves|, level));
  }

  lemma ClimbEnds(h: Hash, leaves: seq<Fr>, leaf: Fr, f: seq<Fr>, cur: Fr)
    requires Climbing(h, leaves, leaf, f, cur, |f|)
    ensures Climbed(h, leaves, leaf, |f|, TreeState(f, cur))
  {
  }

  /** The whole carry chain. */
  lemma {:induction false} ClimbCarries(h: Hash, leaves: seq<Fr>, leaf: Fr, f: seq<Fr>, cur: Fr, level: nat)
    requires Climbing(h, leaves, leaf, f, cur, level)
    ensures Climbed(h, leaves, leaf, |f|, Climb(h, f, Shift(|leaves|, level), cur, level))
    decreases |f| - level
  {
    if level == |f| {
      ClimbEnds(h, leaves, leaf, f, cur);
    } else if Shift(|leaves|, level) % 2 == 0 {
      ClimbLeft(h, leaves, leaf, f, cur, level);
      ClimbCarries(h, leaves, leaf, f[level := cur], h.two(cur, Zero(h, level)), level + 1);
    } else {
      ClimbRight(h, leaves, leaf, f, cur, level);
      ClimbCarries(h, leaves, leaf, f, h.two(f[level], cur), level + 1);
    }
  }

  /** One insert keeps the frontier invariant and yields the root above the new leaf. */
  lemma InsertExtends(h: Hash, leaves: seq<Fr>, leaf: Fr, f: seq<Fr>)
    requires FrontierOk(h, leaves, f)
    ensures var r := Insert(h, f, |leaves|, leaf);
            && FrontierOk(h, leaves + [leaf], r.frontier)
            && r.root == Node(h, leaves + [leaf], |f|, Shift(|leaves|, |f|))
  {
    ClimbCarries(h, leaves, leaf, f, leaf, 0);
  }

  // ----- every slot, live or dead -----

  /** What one insert does to each slot: at the levels where the index has bit 0 the slot becomes the node above
      the new leaf, at the others it stays. */
  ghost predicate SlotsAfter(h: Hash, leaves: seq<Fr>, leaf: Fr, f: seq<Fr>, f': seq<Fr>) {
    && |f'| == |f|
    && forall level :: 0 <= level < |f| ==>
         f'[level] == var k := Shift(|leaves|, level);
                      if k % 2 == 0 then Node(h, leaves + [leaf], level, k) else f[level]
  }

  /** The climb writes each slot at its own level and leaves those below alone. */
  lemma {:induction false} ClimbWrites(h: Hash, leaves: seq<Fr>, leaf: Fr, f: seq<Fr>, cur: Fr, level: nat)
    requires Climbing(h, leaves, leaf, f, cur, level)
    ensures var f' := Climb(h, f, Shift(|leaves|, level), cur, level).frontier;
            && (forall l :: 0 <= l < level ==> f'[l] == f[l])
            && (forall l :: level <= l < |f| ==>
                  f'[l] == var k := Shift(|leaves|, l);
                           if k % 2 == 0 then Node(h, leaves + [leaf], l, k) else f[l])
    decreases |f| - level
  {
    if level < |f| {
      if Shift(|leaves|, level) % 2 == 0 {
        ClimbLeft(h, leaves, leaf, f, cur, level);
        ClimbWrites(h, leaves, leaf, f[level := cur], h.two(cur, Zero(h, level)), level + 1);
      } else {
        ClimbRight(h, leaves, leaf, f, cur, level);
        ClimbWrites(h, leaves, leaf, f, h.two(f[level], cur), level + 1);
      }
    }
  }

  lemma InsertWrites(h: Hash, leaves: seq<Fr>, leaf: Fr, f: seq<Fr>)
    requires FrontierOk(h, leaves, f)
    ensures SlotsAfter(h, leaves, leaf, f, Insert(h, f, |leaves|, leaf).frontier)
  {
    ClimbWrites(h, leaves, leaf, f, leaf, 0);
  }

  /** The frontier of a leaf list, slot by slot: the left one of the two nodes above the last leaf, or the empty
      subtree when there is none. */
  ghost predicate IsFrontier(h: Hash, leaves: seq<Fr>, f: seq<Fr>) {
    forall level :: 0 <= level < |f| ==>
      f[level] == if |leaves| == 0 then Zero(h, level)
                  else var k := Shift(|leaves| - 1, level); Node(h, leaves, level, k - k % 2)
  }

  lemma WrittenIsFrontier(h: Hash, leaves: seq<Fr>, leaf: Fr, f: seq<Fr>, f': seq<Fr>)
    requires FrontierOk(h, leaves, f) && SlotsAfter(h, leaves, leaf, f, f')
    ensures IsFrontier(h, leaves + [leaf], f')
  {
    forall level | 0 <= level < |f'|
      ensures var k := Shift(|leaves|, level); f'[level] == Node(h, leaves + [leaf], level, k - k % 2)
    {
      if Shift(|leaves|, level) % 2 == 1 {
        AppendKeepsOtherNodes(h, leaves, leaf, level, Shift(|leaves|, level) - 1);
      }
    }
  }

  /** For every leaf list, of any length, each slot of the replayed frontier is determined. */
  lemma ReplayFrontier(h: Hash, depth: nat, leaves: seq<Fr>)
    ensures IsFrontier(h, leaves, Replay(h, depth, leaves).frontier)
  {
    if |leaves| > 0 {
      var n := |leaves| - 1;
      var f := Replay(h, depth, leaves[..n]).frontier;
      ReplayInvariant(h, depth, leaves[..n]);
      InsertWrites(h, leaves[..n], leaves[n], f);
      WrittenIsFrontier(h, leaves[..n], leaves[n], f, Insert(h, f, n, leaves[n]).frontier);
      assert leaves[..n] + [leaves[n]] == leaves;
    }
  }

  /** Three leaves in a tree of depth 2, written out: left child first, the empty leaf on the right. */
  lemma ThreeLeaves(h: Hash, a: Fr, b: Fr, c: Fr)
    ensures Replay(h, 2, [a, b, c]) == TreeState([c, h.two(a, b)], h.two(h.two(a, b), h.two(c, 0)))
    ensures Replay(h, 2, []) == TreeState([0, h.two(0, 0)], h.two(h.two(0, 0), h.two(0, 0)))
  {
    var leaves := [a, b, c];
    ReplayInvariant(h, 2, leaves);
    ReplayFrontier(h, 2, leaves);
    ReplayFrontier(h, 2, []);
    assert Shift(2, 1) == Shift(2, 0) / 2 == 1 && Shift(2, 2) == Shift(2, 1) / 2 == 0;
    assert Node(h, leaves, 1, 0) == h.two(Node(h, leaves, 0, 0), Node(h, leaves, 0, 1)) == h.two(a, b);
    assert Node(h, leaves, 1, 1) == h.two(Node(h, leaves, 0, 2), Node(h, leaves, 0, 3)) == h.two(c, 0);
    assert Node(h, leaves, 2, 0) == h.two(Node(h, leaves, 1, 0), Node(h, leaves, 1, 1));
    assert Zero(h, 1) == h.two(Zero(h, 0), Zero(h, 0)) && Zero(h, 2) == h.two(Zero(h, 1), Zero(h, 1));
    assert Replay(h, 2, leaves).frontier == [c, h.two(a, b)];
  }

  /** A batch on top of a replayed tree is the tree of the longer list. */
  lemma BatchExtends(h: Hash, leaves: seq<Fr>, f: seq<Fr>, added: seq<Fr>)
    requires |added| > 0 && f == Replay(h, |f|, leaves).frontier
    ensures var r := InsertAll(h, TreeState(f, Zero(h, |f|)), |leaves|, added);
            && IsFrontier(h, leaves + added, r.frontier)
            && r.root == Node(h, leaves + added, |f|, Shift(|leaves + added| - 1, |f|))
  {
    BatchIsReplay(h, leaves, f, added);
    ReplayFrontier(h, |f|, leaves + added);
    ReplayInvariant(h, |f|, leaves + added);
  }

  lemma BatchIsReplay(h: Hash, leaves: seq<Fr>, f: seq<Fr>, added: seq<Fr>)
    requires |added| > 0 && f == Replay(h, |f|, leaves).frontier
    ensures InsertAll(h, TreeState(f, Zero(h, |f|)), |leaves|, added) == Replay(h, |f|, leaves + added)
  {
    var t := Replay(h, |f|, leaves);
    InsertAllConcat(h, EmptyTree(h, |f|), 0, leaves, added);
    InsertAllIgnoresRoot(h, f, Zero(h, |f|), t.root, |leaves|, added);
    assert TreeState(f, t.root) == t;
  }

  lemma InsertAllIgnoresRoot(h: Hash, f: seq<Fr>, root: Fr, other: Fr, index: nat, leaves: seq<Fr>)
    requires |leaves| > 0
    ensures InsertAll(h, TreeState(f, root), index, leaves) == InsertAll(h, TreeState(f, other), index, leaves)
    decreases |leaves|
  {
    var n := |leaves| - 1;
    if n > 0 {
      InsertAllIgnoresRoot(h, f, root, other, index, leaves[..n]);
    }
  }

  /** For every leaf list: the replayed frontier satisfies the invariant, and the replayed root is the
      node above the last leaf. Past capacity that is no longer the leftmost node of its height. */
  lemma {:induction false} ReplayInvariant(h: Hash, depth: nat, leaves: seq<Fr>)
    ensures FrontierOk(h, leaves, Replay(h, depth, leaves).frontier)
    ensures |leaves| > 0 ==>
              Replay(h, depth, leaves).root == Node(h, leaves, depth, Shift(|leaves| - 1, depth))
    decreases |leaves|
  {
    if |leaves| == 0 {
      forall level: nat
        ensures Shift(0, level) == 0
      {
        ShiftOfZero(level);
      }
    } else {
      var n := |leaves| - 1;
      ReplayInvariant(h, depth, leaves[..n]);
      InsertExtends(h, leaves[..n], leaves[n], Replay(h, depth, leaves[..n]).frontier);
      assert leaves[..n] + [leaves[n]] == leaves;
    }
  }

  lemma {:induction false} ShiftOfZero(level: nat)
    ensures Shift(0, level) == 0
  {
    if level > 0 {
      ShiftOfZero(level - 1);
    }
  }

  /** Within capacity the replayed root is the root of the padded perfect tree. */
  lemma ReplayIsPerfect(h: Hash, depth: nat, leaves: seq<Fr>)
    requires |leaves| <= Pow2(depth)
    ensures Replay(h, depth, leaves).root == PerfectRoot(h, depth, leaves)
  {
    ReplayInvariant(h, depth, leaves);
    if |leaves| == 0 {
      EmptyTreeRoot(h, depth, 0);
    } else {
      ShiftZeroIsCapacity(|leaves| - 1, depth);
    }
  }

  lemma {:induction false} EmptyTreeRoot(h: Hash, level: nat, k: nat)
    ensures Node(h, [], level, k) == Zero(h, level)
    decreases level
  {
    if level > 0 {
      EmptyTreeRoot(h, level - 1, 2 * k);
      EmptyTreeRoot(h, level - 1, 2 * k + 1);
    }
  }

  /** The gated insert of an exact unshield: an empty leaf at the append index reproduces the root
      from ANY frontier that satisfies the invariant. */
  lemma EmptyInsertIsNoOp(h: Hash, leaves: seq<Fr>, f: seq<Fr>)
    requires FrontierOk(h, leaves, f)
    requires |leaves| < Pow2(|f|)
    ensures Insert(h, f, |leaves|, EMPTY_LEAF).root == PerfectRoot(h, |f|, leaves)
  {
    InsertExtends(h, leaves, EMPTY_LEAF, f);
    ShiftZeroIsCapacity(|leaves|, |f|);
    NodeFrame(h, leaves + [EMPTY_LEAF], leaves, |f|, 0);
  }

  // ----- the loops of the source -----

  method EmptyTreeZeros(h: Hash, depth: nat) returns (zeros: seq<Fr>)
    ensures |zeros| == depth + 1
    ensures forall i :: 0 <= i <= depth ==> zeros[i] == Zero(h, i)
  {
    zeros := [EMPTY_LEAF];
    for i := 1 to depth + 1
      invariant |zeros| == i
      invariant forall j :: 0 <= j < i ==> zeros[j] == Zero(h, j)
    {
      zeros := zeros + [h.two(zeros[i - 1], zeros[i - 1])];
    }
  }

  method InsertInto(h: Hash, frontier: seq<Fr>, index: nat, leaf: Fr, zeros: seq<Fr>, depth: nat)
    returns (f: seq<Fr>, root: Fr)
    requires |frontier| == depth && |zeros| >= depth
    requires forall i :: 0 <= i < depth ==> zeros[i] == Zero(h, i)
    ensures TreeState(f, root) == Insert(h, frontier, index, leaf)
    ensures forall leaves :: FrontierOk(h, leaves, frontier) && index == |leaves| ==>
              && SlotsAfter(h, leaves, leaf, frontier, f)
              && root == Node(h, leaves + [leaf], depth, Shift(|leaves|, depth))
  {
    f := frontier;
    var cur := leaf;
    var idx := index;
    for level := 0 to depth
      invariant |f| == depth
      invariant Climb(h, f, idx, cur, level) == Insert(h, frontier, index, leaf)
    {
      if idx % 2 == 0 {
        f := f[level := cur];
        cur := h.two(cur, zeros[level]);
      } else {
        cur := h.two(f[level], cur);
      }
      idx := idx / 2;
    }
    root := cur;
    forall leaves | FrontierOk(h, leaves, frontier) && index == |leaves|
      ensures SlotsAfter(h, leaves, leaf, frontier, f)
      ensures root == Node(h, leaves + [leaf], depth, Shift(|leaves|, depth))
    {
      InsertWrites(h, leaves, leaf, frontier);
      InsertExtends(h, leaves, leaf, frontier);
    }
  }

  method ApplyFrontierTransition(h: Hash, oldFrontier: seq<Fr>, nextIndex: nat, newLeaves: seq<Fr>, depth: nat)
    returns (r: Result<TreeState, TreeError>)
    ensures r.Failure? <==> |oldFrontier| != depth || |newLeaves| == 0
    ensures |oldFrontier| != depth ==> r == Failure(FrontierLength)
    ensures |oldFrontier| == depth && |newLeaves| == 0 ==> r == Failure(NoLeaves)
    ensures r.Success? ==>
              r.value == InsertAll(h, TreeState(oldFrontier, Zero(h, depth)), nextIndex, newLeaves)
    ensures r.Success? ==> forall leaves ::
              oldFrontier == Replay(h, depth, leaves).frontier && nextIndex == |leaves| ==>
                && IsFrontier(h, leaves + newLeaves, r.value.frontier)
                && r.value.root == Node(h, leaves + newLeaves, depth, Shift(|leaves + newLeaves| - 1, depth))
  {
    if |oldFrontier| != depth {
      return Failure(FrontierLength);
    }
    if |newLeaves| == 0 {
      return Failure(NoLeaves);
    }
    var zeros := EmptyTreeZeros(h, depth);
    var frontier := oldFrontier;
    var root := zeros[depth];
    for j := 0 to |newLeaves|
      invariant |frontier| == depth
      invariant TreeState(frontier, root) ==
                InsertAll(h, TreeState(oldFrontier, Zero(h, depth)), nextIndex, newLeaves[..j])
    {
      assert newLeaves[..j + 1][..j] == newLeaves[..j];
      frontier, root := InsertInto(h, frontier, nextIndex + j, newLeaves[j], zeros, depth);
    }
    assert newLeaves[..|newLeaves|] == newLeaves;
    forall leaves | oldFrontier == Replay(h, depth, leaves).frontier && nextIndex == |leaves|
      ensures IsFrontier(h, leaves + newLeaves, frontier)
      ensures root == Node(h, leaves + newLeaves, depth, Shift(|leaves + newLeaves| - 1, depth))
    {
      BatchExtends(h, leaves, oldFrontier, newLeaves);
    }
    return Success(TreeState(frontier, root));
  }

  /** `nodes` lists the nodes of one height, up to those that are empty subtrees. */
  ghost predicate IsLevel(h: Hash, leaves: seq<Fr>, height: nat, nodes: seq<Fr>) {
    forall k: nat :: Node(h, leaves, height, k) == if k < |nodes| then nodes[k] else Zero(h, height)
  }

  class IncrementalMerkleTree {
    const hash: Hash
    const depth: nat
    const zeros: seq<Fr>
    var leaves: seq<Fr>

    ghost predicate Valid() {
      && |zeros| == depth + 1
      && forall i :: 0 <= i <= depth ==> zeros[i] == Zero(hash, i)
    }

    constructor (h: Hash, d: nat)
      ensures Valid() && hash == h && depth == d && leaves == []
    {
      var z := EmptyTreeZeros(h, d);
      hash, depth, zeros, leaves := h, d, z, [];
    }

    method Insert(commitment: Fr) returns (index: nat)
      requires Valid()
      modifies this
      ensures Valid()
      ensures leaves == old(leaves) + [commitment] && index == |old(leaves)|
    {
      index := |leaves|;
      leaves := leaves + [commitment];
    }

    /** Replays every insert; within capacity the outcome is the padded perfect tree's. */
    method State() returns (frontier: seq<Fr>, root: Fr)
      requires Valid()
      ensures TreeState(frontier, root) == Replay(hash, depth, leaves)
      ensures FrontierOk(hash, leaves, frontier) && IsFrontier(hash, leaves, frontier)
      ensures |leaves| <= Pow2(depth) ==> root == PerfectRoot(hash, depth, leaves)
    {
      frontier := zeros[..depth];
      root := zeros[depth];
      assert frontier == Zeros(hash, depth);
      for idx := 0 to |leaves|
        invariant |frontier| == depth
        invariant TreeState(frontier, root) == Replay(hash, depth, leaves[..idx])
      {
        assert leaves[..idx + 1][..idx] == leaves[..idx];
        frontier, root := InsertInto(hash, frontier, idx, leaves[idx], zeros, depth);
      }
      assert leaves[..|leaves|] == leaves;
      ReplayInvariant(hash, depth, leaves);
      ReplayFrontier(hash, depth, leaves);
      if |leaves| <= Pow2(depth) {
        ReplayIsPerfect(hash, depth, leaves);
      }
    }

    method Root() returns (root: Fr)
      requires Valid()
      ensures root == Replay(hash, depth, leaves).root
    {
      var frontier;
      frontier, root := State();
    }

    /** Level by level, bottom up. The path is the perfect tree's path of that leaf for every size;
        it verifies whenever the leaf lies within capacity. */
    method InclusionPath(leafIndex: int) returns (r: Result<MerklePath, TreeError>)
      requires Valid()
      ensures r.Success? <==> 0 <= leafIndex < |leaves|
      ensures r.Failure? ==> r.error == IndexOutOfRange
      ensures r.Success? ==>
                && |r.value.pathBits| == depth
                && r.value.leafIndex == leafIndex
                && IsPathOf(hash, leaves, leafIndex, r.value.siblings, r.value.pathBits)
      ensures r.Success? && leafIndex < Pow2(depth) ==>
                && IndexOf(r.value.pathBits, 0) == leafIndex
                && Fold(hash, leaves[leafIndex], r.value.siblings, r.value.pathBits)
                   == PerfectRoot(hash, depth, leaves)
    {
      if leafIndex < 0 || leafIndex >= |leaves| {
        return Failure(IndexOutOfRange);
      }
      var siblings: seq<Fr> := [];
      var pathBits: seq<bool> := [];
      var level := leaves;
      var idx := leafIndex;
      for d := 0 to depth
        invariant |siblings| == |pathBits| == d
        invariant idx == Shift(leafIndex, d)
        invariant IsLevel(hash, leaves, d, level)
        invariant IsPathOf(hash, leaves, leafIndex, siblings, pathBits)
      {
        var isRight := idx % 2 == 1;
        var sibIdx := if isRight then idx - 1 else idx + 1;
        var sib := if sibIdx < |level| then level[sibIdx] else zeros[d];
        assert sib == Node(hash, leaves, d, sibIdx);
        PathGrows(hash, leaves, leafIndex, siblings, pathBits, sib, isRight);
        siblings := siblings + [sib];
        pathBits := pathBits + [isRight];
        level := NextLevel(d, level);
        idx := idx / 2;
      }
      PathFolds(hash, leaves, leafIndex, siblings, pathBits);
      ShiftZeroIsCapacity(leafIndex, depth);
      return Success(MerklePath(siblings, pathBits, leafIndex));
    }

    method NextLevel(d: nat, level: seq<Fr>) returns (next: seq<Fr>)
      requires Valid() && d < depth
      requires IsLevel(hash, leaves, d, level)
      ensures IsLevel(hash, leaves, d + 1, next)
    {
      next := [];
      var i := 0;
      while i < |level|
        invariant i == 2 * |next|
        invariant forall k :: 0 <= k < |next| ==> next[k] == Node(hash, leaves, d + 1, k)
      {
        var r := if i + 1 < |level| then level[i + 1] else zeros[d];
        next := next + [hash.two(level[i], r)];
        i := i + 2;
      }
      ghost var up := d + 1;
      forall k: nat
        ensures Node(hash, leaves, up, k) == if k < |next| then next[k] else Zero(hash, up)
      {
        if k >= |next| {
          assert 2 * k >= |level|;
        }
      }
    }
  }

  method VerifyInclusionPath(h: Hash, leaf: Fr, path: MerklePath, root: Fr) returns (r: Result<bool, TreeError>)
    ensures r.Failure? <==> |path.siblings| != |path.pathBits|
    ensures r.Failure? ==> r.error == PathLength
    ensures r.Success? ==> r.value == (Fold(h, leaf, path.siblings, path.pathBits) == root)
  {
    if |path.siblings| != |path.pathBits| {
      return Failure(PathLength);
    }
    var cur := leaf;
    for d := 0 to |path.siblings|
      invariant cur == Fold(h, leaf, path.siblings[..d], path.pathBits[..d])
    {
      assert path.siblings[..d + 1][..d] == path.siblings[..d];
      assert path.pathBits[..d + 1][..d] == path.pathBits[..d];
      var sib := path.siblings[d];
      cur := if !path.pathBits[d] then h.two(cur, sib) else h.two(sib, cur);
    }
    assert path.siblings[..|path.siblings|] == path.siblings;
    assert path.pathBits[..|path.pathBits|] == path.pathBits;
    return Success(cur == root);
  }
}
