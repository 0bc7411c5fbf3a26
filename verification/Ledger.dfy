/** Runs of the contract next to the notes they move: the refinement of both trees and no double
    consumption, for every run, and the books that conservation is stated on. */
module Ledger {
  import opened Wrappers
  import opened Hashing
  import opened MerkleTree
  import opened IncrementalTree
  import opened Notes
  import opened RootWindows
  import opened ContractTypes
  import opened Circuits
  import opened ContractSpec
  import opened ContractRuns
  import opened Moves

  /** The append-only leaf list behind one stored tree, and every root the tree published. */
  datatype Grove = Grove(leaves: seq<Fr>, roots: seq<Fr>)

  datatype Position = Position(tree: Tree, index: nat)

  /** Running totals, for one asset, of what the token movements do not show. `repeats` counts the value
      of a leaf each time it is named again after its first consumption. */
  datatype Books = Books(recovered: int, fees: int, repeats: int)

  datatype World = World(state: State, main: Grove, escrow: Grove, spent: set<Position>, books: Books) {
    function GroveOf(t: Tree): Grove {
      if t == Main then main else escrow
    }
  }

  datatype Step = Step(env: Env, call: Call, evidence: Witness)

  /** The standing hypotheses: collision freedom, a field wider than the note range, one depth. */
  ghost predicate Assumed(ps: Params, d: Deployment) {
    && CollisionFree(ps.hash)
    && ps.modulus >= 8 * NOTE_VALUE_BOUND
    && ps.depth == d.depth <= 63
  }

  // ----- one step -----

  function PositionOf(t: Tree, sp: Spend): Position {
    Position(t, IndexOf(sp.bits, 0))
  }

  function NoteWorth(asset: Fr, n: Note): nat {
    if n.assetId == asset then n.value else 0
  }

  /** Consume the spends one after another; naming a consumed position again adds to the repeats. */
  function Consume(asset: Fr, t: Tree, spends: seq<Spend>, spent: set<Position>): (set<Position>, nat) {
    if |spends| == 0 then (spent, 0)
    else
      var n := |spends| - 1;
      var (before, repeats) := Consume(asset, t, spends[..n], spent);
      var pos := PositionOf(t, spends[n]);
      if pos in before then (before, repeats + NoteWorth(asset, spends[n].note))
      else (before + {pos}, repeats)
  }

  function Consumed(t: Tree, spends: seq<Spend>): set<Position> {
    set sp | sp in spends :: PositionOf(t, sp)
  }

  function Grow(h: Hash, g: Grove, m: Move): Grove {
    Grove(g.leaves + Commitments(h, m.outs), g.roots + [m.io.newRoot])
  }

  function Recovered(call: Call, asset: Fr): nat {
    if call.DoMintRecovery? && call.recovery.assetId == asset then call.recovery.amount else 0
  }

  function FeeIn(ps: Params, asset: Fr, n: Note, fee: Fr): int {
    if n.assetId == asset then SignedFee(ps, fee) else 0
  }

  function Fees(ps: Params, call: Call, w: Witness, asset: Fr): int {
    match (call, w)
    case (DoTransfer(_, pi), TransferWitness(a, _, _, _)) => FeeIn(ps, asset, a.note, pi.fee)
    case (DoSettleDvp(_, _, _, pi), DvpWitness(a, b, _, _)) =>
      FeeIn(ps, asset, a.note, pi.feeX) + FeeIn(ps, asset, b.note, pi.feeY)
    case (DoUnshield(_, pi), UnshieldWitness(a, _, _)) => FeeIn(ps, asset, a.note, pi.fee)
    case (DoEscrowDeposit(_, _, _, pi), EscrowLegWitness(a, _)) => FeeIn(ps, asset, a.note, pi.fee)
    case (DoSettleIntent(_, _, pi), DvpWitness(a, b, _, _)) =>
      FeeIn(ps, asset, a.note, pi.feeX) + FeeIn(ps, asset, b.note, pi.feeY)
    case (DoEscrowRefund(_, _, _, pi), EscrowLegWitness(a, _)) => FeeIn(ps, asset, a.note, pi.fee)
    case _ => 0
  }

  function Advance(ps: Params, d: Deployment, asset: Fr, w: World, step: Step): World {
    match Exec(d, w.state, step.env, step.call)
    case Failure(_) => w
    case Success(s') =>
      match MoveOf(step.call, step.evidence)
      case None => w.(state := s')
      case Some(m) =>
        var (spent, repeats) := Consume(asset, m.fromTree, m.spends, w.spent);
        World(s',
              if m.intoTree == Main then Grow(ps.hash, w.main, m) else w.main,
              if m.intoTree == Escrow then Grow(ps.hash, w.escrow, m) else w.escrow,
              spent,
              Books(w.books.recovered + Recovered(step.call, asset),
                    w.books.fees + Fees(ps, step.call, step.evidence, asset),
                    w.books.repeats + repeats))
  }

  function Run(ps: Params, d: Deployment, asset: Fr, w: World, steps: seq<Step>): World
    decreases |steps|
  {
    if |steps| == 0 then w
    else Advance(ps, d, asset, Run(ps, d, asset, w, steps[..|steps| - 1]), steps[|steps| - 1])
  }

  /** Each step carries a witness for its proof whenever the verifier accepts that proof. */
  ghost predicate Faithful(ps: Params, d: Deployment, steps: seq<Step>) {
    forall i :: 0 <= i < |steps| ==> FaithfulStep(ps, d, steps[i])
  }

  ghost predicate FaithfulStep(ps: Params, d: Deployment, step: Step) {
    (StatementOf(step.call).Some? && d.verify(StatementOf(step.call).value, step.call.proof)) ==>
      Attested(ps, step.call, step.evidence)
  }

  // ----- the invariant -----

  /** The stored tree is the incremental tree over the leaf list, and its ring holds the last published
      roots, each the root of a prefix. */
  ghost predicate TreeRefines(ps: Params, t: TreeStore, g: Grove) {
    && t.leafCount == |g.leaves| <= Pow2(ps.depth)
    && t.frontier == Replay(ps.hash, ps.depth, g.leaves).frontier
    && t.root == PerfectRoot(ps.hash, ps.depth, g.leaves)
    && t.recentRoots == LastN(g.roots, RECENT_ROOTS_CAPACITY)
    && |g.roots| > 0 && g.roots[|g.roots| - 1] == t.root
    && (forall r :: r in g.roots ==> IsPrefixRoot(ps, g.leaves, r))
  }

  ghost predicate IsPrefixRoot(ps: Params, leaves: seq<Fr>, r: Fr) {
    exists k: nat :: k <= |leaves| && r == PerfectRoot(ps.hash, ps.depth, leaves[..k])
  }

  /** The stored scalar nf encodes the nullifier of the note behind the leaf cm. */
  ghost predicate Nullifies(ps: Params, cm: Fr, n: Note, sk: Fr, nf: Fr) {
    && Commitment(ps.hash, n) == cm
    && n.ownerPk == DeriveOwnerPk(ps.hash, sk)
    && ps.decode(nf) == DeriveNullifier(ps.hash, n.rho, sk)
  }

  /** A consumed position held a note whose nullifier is stored. */
  ghost predicate SpentRecorded(ps: Params, w: World, pos: Position) {
    && pos.index < |w.GroveOf(pos.tree).leaves|
    && exists n, sk, nf ::
         Nullifies(ps, w.GroveOf(pos.tree).leaves[pos.index], n, sk, nf) && nf in w.state.nullifiers
  }

  ghost predicate Consistent(ps: Params, w: World) {
    && w.state.config.initialized
    && TreeRefines(ps, w.state.main, w.main)
    && TreeRefines(ps, w.state.escrow, w.escrow)
    && forall pos :: pos in w.spent ==> SpentRecorded(ps, w, pos)
  }

  /** The world right after init with the empty-tree seed. */
  ghost predicate Genesis(ps: Params, w: World) {
    var seed := TreeStore(Zeros(ps.hash, ps.depth), Zero(ps.hash, ps.depth), [Zero(ps.hash, ps.depth)], 0);
    && w.state.config.initialized
    && w.state.main == w.state.escrow == seed
    && w.state.nullifiers == {} && w.state.frozen == {} && w.state.intents == map[]
    && w.state.moves == [] && w.state.events == []
    && w.main == w.escrow == Grove([], [Zero(ps.hash, ps.depth)])
    && w.spent == {} && w.books == Books(0, 0, 0)
  }

  lemma GenesisIsConsistent(ps: Params, w: World)
    requires Genesis(ps, w)
    ensures Consistent(ps, w)
  {
    EmptyTreeRoot(ps.hash, ps.depth, 0);
    assert w.main.leaves[..0] == [];
    assert IsPrefixRoot(ps, w.main.leaves, Zero(ps.hash, ps.depth));
  }

  /** init on blank storage with the empty-tree seed is the genesis of every run. */
  lemma InitIsGenesis(ps: Params, d: Deployment, env: Env, cfg: InitConfig, s': State)
    requires Exec(d, Blank(), env, DoInit(cfg)) == Success(s')
    requires cfg.initialFrontier == Zeros(ps.hash, ps.depth) && cfg.initialRoot == Zero(ps.hash, ps.depth)
    ensures var g := Grove([], [Zero(ps.hash, ps.depth)]);
            Genesis(ps, World(s', g, g, {}, Books(0, 0, 0)))
  {
  }

  lemma CallHasEvidence(ps: Params, d: Deployment, env: Env, call: Call) returns (step: Step)
    requires SoundVerifier(ps, d.verify)
    ensures step.env == env && step.call == call && FaithfulStep(ps, d, step)
  {
    var w := ShieldWitness(Note(0, 0, 0, 0, 0));
    if StatementOf(call).Some? && d.verify(StatementOf(call).value, call.proof) {
      w :| Holds(ps, StatementOf(call).value, w);
    }
    step := Step(env, call, w);
  }

  /** With a sound verifier every series of calls has the evidence the run theorems ask for. */
  lemma {:induction false} CallsHaveEvidence(ps: Params, d: Deployment, calls: seq<(Env, Call)>)
    returns (steps: seq<Step>)
    requires SoundVerifier(ps, d.verify)
    ensures |steps| == |calls| && Faithful(ps, d, steps)
    ensures forall i :: 0 <= i < |calls| ==> steps[i].env == calls[i].0 && steps[i].call == calls[i].1
    decreases |calls|
  {
    if |calls| == 0 {
      steps := [];
    } else {
      var n := |calls| - 1;
      var earlier := CallsHaveEvidence(ps, d, calls[..n]);
      var step := CallHasEvidence(ps, d, calls[n].0, calls[n].1);
      steps := earlier + [step];
    }
  }

  // ----- the two trees -----

  /** An attested transition from the stored frontier at the stored count is the incremental tree over
      the longer list; without outputs it reproduces the current root. */
  lemma TransitionExtends(ps: Params, io: TreeIo, leaves: seq<Fr>, added: seq<Fr>)
    requires TreeIoHolds(ps, io, added)
    requires io.oldFrontier == Replay(ps.hash, ps.depth, leaves).frontier && io.nextIndex == |leaves|
    requires |leaves| <= Pow2(ps.depth)
    ensures |leaves + added| <= Pow2(ps.depth)
    ensures io.newFrontier == Replay(ps.hash, ps.depth, leaves + added).frontier
    ensures io.newRoot == PerfectRoot(ps.hash, ps.depth, leaves + added)
  {
    var h := ps.hash;
    if |added| == 0 {
      assert leaves + added == leaves;
      ReplayInvariant(h, ps.depth, leaves);
      EmptyInsertIsNoOp(h, leaves, io.oldFrontier);
    } else {
      var t := Replay(h, ps.depth, leaves);
      InsertAllConcat(h, EmptyTree(h, ps.depth), 0, leaves, added);
      InsertAllIgnoresRoot(h, io.oldFrontier, Zero(h, ps.depth), t.root, |leaves|, added);
      ReplayIsPerfect(h, ps.depth, leaves + added);
    }
  }

  lemma PrefixRootsPersist(ps: Params, leaves: seq<Fr>, added: seq<Fr>, r: Fr)
    requires IsPrefixRoot(ps, leaves, r)
    ensures IsPrefixRoot(ps, leaves + added, r)
  {
    var k: nat :| k <= |leaves| && r == PerfectRoot(ps.hash, ps.depth, leaves[..k]);
    assert (leaves + added)[..k] == leaves[..k];
  }

  lemma TreeAdvances(ps: Params, t: TreeStore, g: Grove, m: Move, t': TreeStore)
    requires TreeRefines(ps, t, g) && MoveHolds(ps, m)
    requires m.io.oldFrontier == t.frontier && m.io.nextIndex == t.leafCount
    requires t' == TreeStore(
                     m.io.newFrontier, m.io.newRoot, PushRecent(t.recentRoots, m.io.newRoot), t.leafCount + |m.outs|)
    ensures TreeRefines(ps, t', Grow(ps.hash, g, m))
  {
    var h, added := ps.hash, Commitments(ps.hash, m.outs);
    var g' := Grow(h, g, m);
    TransitionExtends(ps, m.io, g.leaves, added);
    LastNPush(g.roots, m.io.newRoot, RECENT_ROOTS_CAPACITY);
    forall r | r in g'.roots
      ensures IsPrefixRoot(ps, g'.leaves, r)
    {
      if r in g.roots {
        PrefixRootsPersist(ps, g.leaves, added, r);
      } else {
        assert g'.leaves[..|g'.leaves|] == g'.leaves;
      }
    }
  }

  // ----- spends open unconsumed leaves -----

  lemma LastNIn(s: seq<Fr>, n: nat, x: Fr)
    requires x in LastN(s, n)
    ensures x in s
  {
  }

  /** Path soundness at a root of the ring: the spent note is the leaf its path addresses. */
  lemma SpendOpensLeaf(ps: Params, t: TreeStore, g: Grove, anchorRoot: Fr, frozenRoot: Fr, nf: Fr, sp: Spend)
    requires CollisionFree(ps.hash)
    requires TreeRefines(ps, t, g) && anchorRoot in t.recentRoots
    requires SpendHolds(ps, anchorRoot, frozenRoot, nf, sp)
    ensures IndexOf(sp.bits, 0) < |g.leaves|
    ensures g.leaves[IndexOf(sp.bits, 0)] == Commitment(ps.hash, sp.note)
  {
    LastNIn(g.roots, RECENT_ROOTS_CAPACITY, anchorRoot);
    assert IsPrefixRoot(ps, g.leaves, anchorRoot);
    var k: nat :| k <= |g.leaves| && anchorRoot == PerfectRoot(ps.hash, ps.depth, g.leaves[..k]);
    PathOpensLeaf(ps.hash, g.leaves[..k], Commitment(ps.hash, sp.note), sp.siblings, sp.bits, 0);
  }

  /** No stored nullifier encodes the same field element. */
  ghost predicate Unpublished(ps: Params, nullifiers: set<Fr>, nf: Fr) {
    forall other :: other in nullifiers ==> ps.decode(other) != ps.decode(nf)
  }

  /** A spend whose nullifier is fresh, in whatever encoding, consumes a position no earlier call consumed. */
  lemma FreshNullifierFreshPosition(ps: Params, w: World, m: Move, i: nat)
    requires CollisionFree(ps.hash)
    requires Consistent(ps, w) && MoveHolds(ps, m) && i < |m.spends|
    requires m.anchorRoot in w.state.TreeOf(m.fromTree).recentRoots
    requires Unpublished(ps, w.state.nullifiers, m.nfs[i])
    ensures PositionOf(m.fromTree, m.spends[i]) !in w.spent
  {
    var sp := m.spends[i];
    var pos := PositionOf(m.fromTree, sp);
    SpendOpensLeaf(ps, w.state.TreeOf(m.fromTree), w.GroveOf(m.fromTree), m.anchorRoot, m.frozenRoot,
                   ps.decode(m.nfs[i]), sp);
    if pos in w.spent {
      assert SpentRecorded(ps, w, pos);
      var n, sk, nf :| Nullifies(ps, w.GroveOf(pos.tree).leaves[pos.index], n, sk, nf) && nf in w.state.nullifiers;
      CommitmentFixesNullifier(ps.hash, n, sk, sp.note, sp.ownerSk);
    }
  }

  lemma {:induction false} ConsumeAddsPositions(asset: Fr, t: Tree, spends: seq<Spend>, spent: set<Position>)
    ensures Consume(asset, t, spends, spent).0 == spent + Consumed(t, spends)
    decreases |spends|
  {
    if |spends| > 0 {
      var n := |spends| - 1;
      ConsumeAddsPositions(asset, t, spends[..n], spent);
      assert spends == spends[..n] + [spends[n]];
      assert Consumed(t, spends) == Consumed(t, spends[..n]) + {PositionOf(t, spends[n])};
    }
  }

  ghost predicate Opens(h: Hash, t: Tree, leaves: seq<Fr>, sp: Spend) {
    var i := PositionOf(t, sp).index;
    i < |leaves| && leaves[i] == Commitment(h, sp.note)
  }

  lemma SpendsOpenLeaves(ps: Params, w: World, m: Move, s': State)
    requires CollisionFree(ps.hash)
    requires Consistent(ps, w) && MoveHolds(ps, m) && Moved(w.state, s', m)
    ensures forall sp :: sp in m.spends ==> Opens(ps.hash, m.fromTree, w.GroveOf(m.fromTree).leaves, sp)
  {
    forall sp | sp in m.spends
      ensures Opens(ps.hash, m.fromTree, w.GroveOf(m.fromTree).leaves, sp)
    {
      var i :| 0 <= i < |m.spends| && sp == m.spends[i];
      SpendOpensLeaf(ps, w.state.TreeOf(m.fromTree), w.GroveOf(m.fromTree), m.anchorRoot, m.frozenRoot,
                     ps.decode(m.nfs[i]), sp);
    }
  }

  function SpendTree(call: Call): Tree {
    if call.DoSettleIntent? || call.DoEscrowRefund? then Escrow else Main
  }

  lemma SpendTreeOf(call: Call, w: Witness)
    requires MoveOf(call, w).Some?
    ensures var m := MoveOf(call, w).value; |m.spends| > 0 ==> m.fromTree == SpendTree(call)
  {
  }

  /** Domain separation: settlement and refund consume Escrow leaves only, every other spend Main leaves
      only. A note that is a leaf of one tree alone cannot be spent through the other. */
  lemma SpendsStayInTheirTree(ps: Params, d: Deployment, w: World, step: Step, sp: Spend)
    requires Assumed(ps, d) && Consistent(ps, w) && FaithfulStep(ps, d, step)
    requires Exec(d, w.state, step.env, step.call).Success? && MoveOf(step.call, step.evidence).Some?
    requires sp in MoveOf(step.call, step.evidence).value.spends
    ensures Opens(ps.hash, SpendTree(step.call), w.GroveOf(SpendTree(step.call)).leaves, sp)
  {
    var s' := Exec(d, w.state, step.env, step.call).value;
    var m := MoveOf(step.call, step.evidence).value;
    AcceptedIsAttested(ps, d, w.state, step);
    AcceptedIsMove(ps, d, w.state, step.env, step.call, step.evidence, s');
    SpendsOpenLeaves(ps, w, m, s');
    SpendTreeOf(step.call, step.evidence);
  }

  // ----- the invariant is kept -----

  lemma SpentStaysRecorded(ps: Params, w: World, w': World, pos: Position)
    requires SpentRecorded(ps, w, pos)
    requires w.state.nullifiers <= w'.state.nullifiers
    requires w.GroveOf(pos.tree).leaves <= w'.GroveOf(pos.tree).leaves
    ensures SpentRecorded(ps, w', pos)
  {
    var n, sk, nf :| Nullifies(ps, w.GroveOf(pos.tree).leaves[pos.index], n, sk, nf) && nf in w.state.nullifiers;
    assert Nullifies(ps, w'.GroveOf(pos.tree).leaves[pos.index], n, sk, nf);
  }

  /** What one move does to the world, as far as the trees and the consumed positions go. */
  ghost predicate WorldMoved(ps: Params, w: World, w': World, m: Move) {
    && w'.GroveOf(m.intoTree) == Grow(ps.hash, w.GroveOf(m.intoTree), m)
    && (m.intoTree == Main ==> w'.escrow == w.escrow)
    && (m.intoTree == Escrow ==> w'.main == w.main)
    && w'.spent == w.spent + Consumed(m.fromTree, m.spends)
  }

  lemma SpendIsRecorded(ps: Params, w: World, m: Move, w': World, i: nat)
    requires MoveHolds(ps, m) && Moved(w.state, w'.state, m) && WorldMoved(ps, w, w', m) && i < |m.spends|
    requires Opens(ps.hash, m.fromTree, w.GroveOf(m.fromTree).leaves, m.spends[i])
    ensures SpentRecorded(ps, w', PositionOf(m.fromTree, m.spends[i]))
  {
    var sp := m.spends[i];
    assert w.GroveOf(m.fromTree).leaves <= w'.GroveOf(m.fromTree).leaves;
    assert SpendHolds(ps, m.anchorRoot, m.frozenRoot, ps.decode(m.nfs[i]), sp);
    assert m.nfs[i] in m.nfs && m.nfs[i] in w'.state.nullifiers;
    assert Nullifies(ps, w'.GroveOf(m.fromTree).leaves[PositionOf(m.fromTree, sp).index],
                     sp.note, sp.ownerSk, m.nfs[i]);
  }

  lemma SpendsAreRecorded(ps: Params, w: World, m: Move, w': World, pos: Position)
    requires CollisionFree(ps.hash)
    requires Consistent(ps, w) && MoveHolds(ps, m) && Moved(w.state, w'.state, m) && WorldMoved(ps, w, w', m)
    requires pos in Consumed(m.fromTree, m.spends)
    ensures SpentRecorded(ps, w', pos)
  {
    var i :| 0 <= i < |m.spends| && pos == PositionOf(m.fromTree, m.spends[i]);
    SpendsOpenLeaves(ps, w, m, w'.state);
    assert m.spends[i] in m.spends;
    SpendIsRecorded(ps, w, m, w', i);
  }

  /** A move keeps the invariant. */
  lemma MoveKeepsConsistent(ps: Params, w: World, m: Move, w': World)
    requires CollisionFree(ps.hash)
    requires Consistent(ps, w) && MoveHolds(ps, m) && Moved(w.state, w'.state, m) && WorldMoved(ps, w, w', m)
    ensures Consistent(ps, w')
  {
    TreeAdvances(ps, w.state.TreeOf(m.intoTree), w.GroveOf(m.intoTree), m, w'.state.TreeOf(m.intoTree));
    forall pos | pos in Consumed(m.fromTree, m.spends)
      ensures SpentRecorded(ps, w', pos)
    {
      SpendsAreRecorded(ps, w, m, w', pos);
    }
    forall pos | pos in w.spent
      ensures SpentRecorded(ps, w', pos)
    {
      SpentStaysRecorded(ps, w, w', pos);
    }
  }

  lemma AdvanceOnMove(ps: Params, d: Deployment, asset: Fr, w: World, step: Step, s': State)
    requires Exec(d, w.state, step.env, step.call) == Success(s') && MoveOf(step.call, step.evidence).Some?
    ensures WorldMoved(ps, w, Advance(ps, d, asset, w, step), MoveOf(step.call, step.evidence).value)
    ensures Advance(ps, d, asset, w, step).state == s'
  {
    var m := MoveOf(step.call, step.evidence).value;
    ConsumeAddsPositions(asset, m.fromTree, m.spends, w.spent);
  }

  ghost predicate Accepted(d: Deployment, w: World, step: Step) {
    Exec(d, w.state, step.env, step.call).Success?
  }

  /** The verifier's acceptance is part of being accepted, so the step's evidence attests its proof. */
  lemma AcceptedIsAttested(ps: Params, d: Deployment, s: State, step: Step)
    requires FaithfulStep(ps, d, step) && Exec(d, s, step.env, step.call).Success?
    ensures Attested(ps, step.call, step.evidence)
  {
  }

  /** The positions a step consumes: none unless it is accepted. */
  ghost function ConsumedBy(d: Deployment, w: World, step: Step): set<Position> {
    if Accepted(d, w, step) && MoveOf(step.call, step.evidence).Some? then
      Consumed(MoveOf(step.call, step.evidence).value.fromTree, MoveOf(step.call, step.evidence).value.spends)
    else {}
  }

  lemma StepKeepsConsistent(ps: Params, d: Deployment, asset: Fr, w: World, step: Step)
    requires Assumed(ps, d) && Consistent(ps, w) && FaithfulStep(ps, d, step)
    ensures var w' := Advance(ps, d, asset, w, step);
            && Consistent(ps, w')
            && w'.spent == w.spent + ConsumedBy(d, w, step)
  {
    if Accepted(d, w, step) {
      var s' := Exec(d, w.state, step.env, step.call).value;
      var w' := Advance(ps, d, asset, w, step);
      if StatementOf(step.call).Some? {
        AcceptedIsAttested(ps, d, w.state, step);
        AcceptedIsMove(ps, d, w.state, step.env, step.call, step.evidence, s');
        AdvanceOnMove(ps, d, asset, w, step, s');
        MoveKeepsConsistent(ps, w, MoveOf(step.call, step.evidence).value, w');
      } else {
        AdministrativeCallsMoveNothing(d, w.state, step.env, step.call, s');
        forall pos | pos in w.spent
          ensures SpentRecorded(ps, w', pos)
        {
          SpentStaysRecorded(ps, w, w', pos);
        }
      }
    }
  }

  // ----- run-wide theorems -----

  /** Refinement: after every run both stored trees are the incremental trees over append-only leaf
      lists, and every anchor the contract still accepts is the root of a prefix. */
  lemma {:induction false} RunRefinesTrees(ps: Params, d: Deployment, asset: Fr, w: World, steps: seq<Step>)
    requires Assumed(ps, d) && Consistent(ps, w) && Faithful(ps, d, steps)
    ensures Consistent(ps, Run(ps, d, asset, w, steps))
    decreases |steps|
  {
    if |steps| > 0 {
      var n := |steps| - 1;
      var before := Run(ps, d, asset, w, steps[..n]);
      RunRefinesTrees(ps, d, asset, w, steps[..n]);
      StepKeepsConsistent(ps, d, asset, before, steps[n]);
      assert Run(ps, d, asset, w, steps) == Advance(ps, d, asset, before, steps[n]);
    }
  }

  lemma AcceptedKeepsNullifiers(d: Deployment, s: State, env: Env, call: Call, s': State)
    requires Exec(d, s, env, call) == Success(s')
    ensures s.nullifiers <= s'.nullifiers
  {
  }

  lemma AdvanceKeepsSpent(ps: Params, d: Deployment, asset: Fr, w: World, step: Step)
    ensures var w' := Advance(ps, d, asset, w, step);
            w.spent <= w'.spent && w.state.nullifiers <= w'.state.nullifiers
  {
    if Accepted(d, w, step) {
      var s' := Exec(d, w.state, step.env, step.call).value;
      AcceptedKeepsNullifiers(d, w.state, step.env, step.call, s');
      if MoveOf(step.call, step.evidence).Some? {
        AdvanceOnMove(ps, d, asset, w, step, s');
      }
    }
  }

  /** Neither the consumed positions nor the stored nullifiers are ever forgotten. */
  lemma {:induction false} SpentOnlyGrows(ps: Params, d: Deployment, asset: Fr, w: World, steps: seq<Step>, i: nat)
    requires i <= |steps|
    ensures Run(ps, d, asset, w, steps[..i]).spent <= Run(ps, d, asset, w, steps).spent
    ensures Run(ps, d, asset, w, steps[..i]).state.nullifiers <= Run(ps, d, asset, w, steps).state.nullifiers
    decreases |steps|
  {
    if i == |steps| {
      assert steps[..i] == steps;
    } else {
      var n := |steps| - 1;
      assert steps[..n][..i] == steps[..i];
      SpentOnlyGrows(ps, d, asset, w, steps[..n], i);
      AdvanceKeepsSpent(ps, d, asset, Run(ps, d, asset, w, steps[..n]), steps[n]);
    }
  }

  // ----- consumed once -----

  /** No two of the scalars encode one field element. */
  ghost predicate OneEncodingEach(ps: Params, nullifiers: set<Fr>) {
    forall a, b :: a in nullifiers && b in nullifiers && ps.decode(a) == ps.decode(b) ==> a == b
  }

  /** The contract compares raw scalars, so consuming a position again takes exactly this: a stored nullifier
      and a new one that are two encodings of one field element. */
  ghost predicate SecondEncoding(ps: Params, stored: set<Fr>, nf: Fr) {
    nf !in stored && !Unpublished(ps, stored, nf)
  }

  lemma ConsumedAgain(ps: Params, d: Deployment, w: World, step: Step, pos: Position)
    requires Assumed(ps, d) && Consistent(ps, w) && FaithfulStep(ps, d, step)
    requires pos in ConsumedBy(d, w, step) && pos in w.spent
    ensures exists nf :: nf in MoveOf(step.call, step.evidence).value.nfs && SecondEncoding(ps, w.state.nullifiers, nf)
  {
    var s' := Exec(d, w.state, step.env, step.call).value;
    var m := MoveOf(step.call, step.evidence).value;
    AcceptedIsAttested(ps, d, w.state, step);
    AcceptedIsMove(ps, d, w.state, step.env, step.call, step.evidence, s');
    var i :| 0 <= i < |m.spends| && pos == PositionOf(m.fromTree, m.spends[i]);
    assert m.nfs[i] in m.nfs;
    if Unpublished(ps, w.state.nullifiers, m.nfs[i]) {
      FreshNullifierFreshPosition(ps, w, m, i);
    }
  }

  lemma NamedIsStored(ps: Params, d: Deployment, asset: Fr, w: World, step: Step, nf: Fr)
    requires Assumed(ps, d) && FaithfulStep(ps, d, step) && Accepted(d, w, step)
    requires MoveOf(step.call, step.evidence).Some? && nf in MoveOf(step.call, step.evidence).value.nfs
    ensures nf in Advance(ps, d, asset, w, step).state.nullifiers
  {
    var s' := Exec(d, w.state, step.env, step.call).value;
    AcceptedIsAttested(ps, d, w.state, step);
    AcceptedIsMove(ps, d, w.state, step.env, step.call, step.evidence, s');
  }

  /** While each nullifier is stored in one encoding, a step consumes nothing that was consumed before. */
  lemma StepConsumesFresh(ps: Params, d: Deployment, asset: Fr, w: World, step: Step)
    requires Assumed(ps, d) && Consistent(ps, w) && FaithfulStep(ps, d, step)
    requires OneEncodingEach(ps, Advance(ps, d, asset, w, step).state.nullifiers)
    ensures w.spent !! ConsumedBy(d, w, step)
  {
    if pos :| pos in w.spent && pos in ConsumedBy(d, w, step) {
      ConsumedAgain(ps, d, w, step, pos);
      var nf :| nf in MoveOf(step.call, step.evidence).value.nfs && SecondEncoding(ps, w.state.nullifiers, nf);
      NamedIsStored(ps, d, asset, w, step, nf);
      AdvanceKeepsSpent(ps, d, asset, w, step);
    }
  }

  /** What step i consumes was unspent before it and is spent after it. */
  lemma StepSpends(ps: Params, d: Deployment, asset: Fr, w: World, steps: seq<Step>, i: nat)
    requires Assumed(ps, d) && Consistent(ps, w) && Faithful(ps, d, steps) && i < |steps|
    requires OneEncodingEach(ps, Run(ps, d, asset, w, steps).state.nullifiers)
    ensures var consumed := ConsumedBy(d, Run(ps, d, asset, w, steps[..i]), steps[i]);
            && consumed !! Run(ps, d, asset, w, steps[..i]).spent
            && consumed <= Run(ps, d, asset, w, steps[..i + 1]).spent
  {
    var before := Run(ps, d, asset, w, steps[..i]);
    RunRefinesTrees(ps, d, asset, w, steps[..i]);
    StepKeepsConsistent(ps, d, asset, before, steps[i]);
    assert steps[..i + 1][..i] == steps[..i];
    assert Run(ps, d, asset, w, steps[..i + 1]) == Advance(ps, d, asset, before, steps[i]);
    SpentOnlyGrows(ps, d, asset, w, steps, i + 1);
    StepConsumesFresh(ps, d, asset, before, steps[i]);
  }

  function Invocations(steps: seq<Step>): (r: seq<Invocation>)
    ensures |r| == |steps|
  {
    seq(|steps|, i requires 0 <= i < |steps| => Invocation(steps[i].env, steps[i].call))
  }

  /** The ghost bookkeeping never steers the contract: a run of the ledger is a run of the contract. */
  lemma {:induction false} RunIsContractRun(ps: Params, d: Deployment, asset: Fr, w: World, steps: seq<Step>)
    ensures Run(ps, d, asset, w, steps).state == After(d, w.state, Invocations(steps))
    decreases |steps|
  {
    if |steps| > 0 {
      var n := |steps| - 1;
      var before := Run(ps, d, asset, w, steps[..n]);
      RunIsContractRun(ps, d, asset, w, steps[..n]);
      assert Invocations(steps)[..n] == Invocations(steps[..n]);
      assert Advance(ps, d, asset, before, steps[n]).state == Next(d, before.state, Invocations(steps)[n]);
    }
  }

  /** No leaf position is consumed by two accepted calls of a run, unless the run stored two encodings of one
      nullifier. */
  lemma NoDoubleConsumption(ps: Params, d: Deployment, asset: Fr, w: World, steps: seq<Step>, i: nat, j: nat)
    requires Assumed(ps, d) && Consistent(ps, w) && Faithful(ps, d, steps)
    requires i < j < |steps|
    requires OneEncodingEach(ps, Run(ps, d, asset, w, steps).state.nullifiers)
    ensures ConsumedBy(d, Run(ps, d, asset, w, steps[..i]), steps[i])
            !! ConsumedBy(d, Run(ps, d, asset, w, steps[..j]), steps[j])
  {
    StepSpends(ps, d, asset, w, steps, i);
    StepSpends(ps, d, asset, w, steps, j);
    assert steps[..j][..i + 1] == steps[..i + 1];
    SpentOnlyGrows(ps, d, asset, w, steps[..j], i + 1);
  }
}
