/** Eight entrypoints, one shape: every accepted call that touches a tree spends notes of one tree and
    appends notes to one tree. */
module Moves {
  import opened Wrappers
  import opened Hashing
  import opened MerkleTree
  import opened IncrementalTree
  import opened Notes
  import opened RootWindows
  import opened ContractTypes
  import opened Circuits
  import opened ContractSpec

  datatype Move = Move(
    fromTree: Tree, anchorRoot: Fr, frozenRoot: Fr, spends: seq<Spend>, nfs: seq<Fr>,
    intoTree: Tree, io: TreeIo, outs: seq<Note>)

  function Commitments(h: Hash, notes: seq<Note>): (r: seq<Fr>)
    ensures |r| == |notes|
    ensures forall i :: 0 <= i < |r| ==> r[i] == Commitment(h, notes[i])
  {
    seq(|notes|, i requires 0 <= i < |notes| => Commitment(h, notes[i]))
  }

  function MoveOf(call: Call, w: Witness): Option<Move> {
    match (call, w)
    case (DoShield(_, _, pi), ShieldWitness(n)) => Some(Move(Main, 0, 0, [], [], Main, pi.tree, [n]))
    case (DoMintRecovery(_, pi), ShieldWitness(n)) => Some(Move(Main, 0, 0, [], [], Main, pi.tree, [n]))
    case (DoTransfer(_, pi), TransferWitness(a, b, c, d)) =>
      Some(Move(Main, pi.anchorRoot, pi.roots.frozen, [a, b], [pi.nfIn0, pi.nfIn1], Main, pi.tree, [c, d]))
    case (DoSettleDvp(_, _, _, pi), DvpWitness(a, b, c, d)) =>
      Some(Move(Main, pi.anchorRoot, pi.roots.frozen, [a, b], [pi.nfLegX, pi.nfLegY], Main, pi.tree, [c, d]))
    case (DoUnshield(_, pi), UnshieldWitness(a, hasChange, c)) =>
      Some(Move(Main, pi.anchorRoot, pi.roots.frozen, [a], [pi.nfIn], Main, pi.tree, if hasChange then [c] else []))
    case (DoEscrowDeposit(_, _, _, pi), EscrowLegWitness(a, c)) =>
      Some(Move(Main, pi.anchorRoot, pi.roots.frozen, [a], [pi.nfIn], Escrow, pi.tree, [c]))
    case (DoSettleIntent(_, _, pi), DvpWitness(a, b, c, d)) =>
      Some(Move(Escrow, pi.anchorRoot, pi.roots.frozen, [a, b], [pi.nfLegX, pi.nfLegY], Main, pi.tree, [c, d]))
    case (DoEscrowRefund(_, _, _, pi), EscrowLegWitness(a, c)) =>
      Some(Move(Escrow, pi.anchorRoot, pi.roots.frozen, [a], [pi.nfIn], Main, pi.tree, [c]))
    case _ => None
  }

  function StatementOf(call: Call): Option<Statement> {
    match call
    case DoShield(_, _, pi) => Some(ShieldStatement(pi))
    case DoMintRecovery(_, pi) => Some(ShieldStatement(pi))
    case DoTransfer(_, pi) => Some(TransferStatement(pi))
    case DoSettleDvp(_, _, _, pi) => Some(DvpStatement(pi))
    case DoUnshield(_, pi) => Some(UnshieldStatement(pi))
    case DoEscrowDeposit(_, _, _, pi) => Some(EscrowDepositStatement(pi))
    case DoSettleIntent(_, _, pi) => Some(DvpStatement(pi))
    case DoEscrowRefund(_, _, _, pi) => Some(EscrowRefundStatement(pi))
    case _ => None
  }

  ghost predicate TreeIoHolds(ps: Params, io: TreeIo, leaves: seq<Fr>) {
    && |io.oldFrontier| == |io.newFrontier| == ps.depth
    && if |leaves| == 0 then GatedTransitionHolds(ps, io, false, EMPTY_LEAF) else TransitionHolds(ps, io, leaves)
  }

  /** What the proof of a move attests. */
  ghost predicate MoveHolds(ps: Params, m: Move) {
    && |m.nfs| == |m.spends|
    && (forall i :: 0 <= i < |m.spends| ==>
                      SpendHolds(ps, m.anchorRoot, m.frozenRoot, ps.decode(m.nfs[i]), m.spends[i]))
    && (forall i :: 0 <= i < |m.outs| ==> m.outs[i].value < NOTE_VALUE_BOUND)
    && TreeIoHolds(ps, m.io, Commitments(ps.hash, m.outs))
  }

  /** What the contract checked and stored for a move. */
  ghost predicate Moved(s: State, s': State, m: Move) {
    && (|m.spends| > 0 ==>
          && m.anchorRoot in s.TreeOf(m.fromTree).recentRoots
          && m.frozenRoot == s.config.frozenRoot)
    && (forall nf :: nf in m.nfs ==> nf !in s.nullifiers)
    && s'.nullifiers == s.nullifiers + (set nf | nf in m.nfs)
    && m.io.oldFrontier == s.TreeOf(m.intoTree).frontier
    && m.io.nextIndex == s.TreeOf(m.intoTree).leafCount
    && s'.TreeOf(m.intoTree) == TreeStore(
         m.io.newFrontier, m.io.newRoot, PushRecent(s.TreeOf(m.intoTree).recentRoots, m.io.newRoot),
         s.TreeOf(m.intoTree).leafCount + |m.outs|)
    && (m.intoTree == Main ==> s'.escrow == s.escrow)
    && (m.intoTree == Escrow ==> s'.main == s.main)
    && s'.frozen == s.frozen && s'.config == s.config
  }

  lemma {:induction false} CapacityIsBelowU64(depth: nat, more: nat)
    requires depth + more == 63
    ensures Pow2(depth) < U64_MAX
    ensures Pow2(depth) <= Pow2(63)
    decreases more
  {
    if more == 0 {
      assert Pow2(10) == 1024;
      assert Pow2(20) == 1024 * Pow2(10);
      assert Pow2(30) == 1024 * Pow2(20);
      assert Pow2(40) == 1024 * Pow2(30);
      assert Pow2(50) == 1024 * Pow2(40);
      assert Pow2(60) == 1024 * Pow2(50);
    } else {
      CapacityIsBelowU64(depth + 1, more - 1);
    }
  }

  ghost predicate Attested(ps: Params, call: Call, w: Witness) {
    StatementOf(call).Some? ==> Holds(ps, StatementOf(call).value, w)
  }

  /** The commitments a statement makes public; the change sentinel is not one. */
  function PublicOutputs(st: Statement): seq<Fr> {
    match st
    case ShieldStatement(pi) => [pi.cmOut]
    case TransferStatement(pi) => [pi.cmOut0, pi.cmOut1]
    case UnshieldStatement(pi) => if pi.cmChange == EMPTY_LEAF then [] else [pi.cmChange]
    case DvpStatement(pi) => [pi.cmOutX, pi.cmOutY]
    case EscrowDepositStatement(pi) => [pi.cmOut]
    case EscrowRefundStatement(pi) => [pi.cmOut]
  }

  // ----- what the proofs attest -----

  lemma ShieldProof(ps: Params, pi: ShieldInputs, w: Witness, m: Move)
    requires Holds(ps, ShieldStatement(pi), w)
    requires m.spends == [] && m.nfs == [] && m.io == pi.tree && m.outs == [w.minted]
    ensures MoveHolds(ps, m) && Commitments(ps.hash, m.outs) == [pi.cmOut]
  {
    assert Commitments(ps.hash, m.outs) == [pi.cmOut];
  }

  lemma TransferProof(ps: Params, pi: TransferInputs, w: Witness, m: Move)
    requires Holds(ps, TransferStatement(pi), w)
    requires m.anchorRoot == pi.anchorRoot && m.frozenRoot == pi.roots.frozen && m.io == pi.tree
    requires m.spends == [w.in0, w.in1] && m.nfs == [pi.nfIn0, pi.nfIn1] && m.outs == [w.out0, w.out1]
    ensures MoveHolds(ps, m) && Commitments(ps.hash, m.outs) == [pi.cmOut0, pi.cmOut1]
  {
    assert Commitments(ps.hash, m.outs) == [pi.cmOut0, pi.cmOut1];
  }

  lemma DvpProof(ps: Params, pi: DvpInputs, w: Witness, m: Move)
    requires Holds(ps, DvpStatement(pi), w)
    requires m.anchorRoot == pi.anchorRoot && m.frozenRoot == pi.roots.frozen && m.io == pi.tree
    requires m.spends == [w.legX, w.legY] && m.nfs == [pi.nfLegX, pi.nfLegY] && m.outs == [w.outX, w.outY]
    ensures MoveHolds(ps, m) && Commitments(ps.hash, m.outs) == [pi.cmOutX, pi.cmOutY]
  {
    assert Commitments(ps.hash, m.outs) == [pi.cmOutX, pi.cmOutY];
  }

  /** The change sentinel is unambiguous because a real commitment is never 0. */
  lemma UnshieldProof(ps: Params, pi: UnshieldInputs, w: Witness, m: Move)
    requires CollisionFree(ps.hash)
    requires Holds(ps, UnshieldStatement(pi), w)
    requires m.anchorRoot == pi.anchorRoot && m.frozenRoot == pi.roots.frozen && m.io == pi.tree
    requires m.spends == [w.spent] && m.nfs == [pi.nfIn] && m.outs == if w.hasChange then [w.change] else []
    ensures MoveHolds(ps, m)
    ensures Commitments(ps.hash, m.outs) == if pi.cmChange == EMPTY_LEAF then [] else [pi.cmChange]
  {
    if w.hasChange {
      assert Commitments(ps.hash, m.outs) == [pi.cmChange];
      InsertAllOne(ps.hash, TreeState(pi.tree.oldFrontier, Zero(ps.hash, ps.depth)), pi.tree.nextIndex, pi.cmChange);
    }
  }

  lemma EscrowLegProof(ps: Params, pi: EscrowLegInputs, a: Spend, c: Note, m: Move)
    requires EscrowLegHolds(ps, pi, a, c)
    requires m.anchorRoot == pi.anchorRoot && m.frozenRoot == pi.roots.frozen && m.io == pi.tree
    requires m.spends == [a] && m.nfs == [pi.nfIn] && m.outs == [c]
    ensures MoveHolds(ps, m) && Commitments(ps.hash, m.outs) == [pi.cmOut]
  {
    assert Commitments(ps.hash, m.outs) == [pi.cmOut];
  }

  // ----- what the contract checks and stores -----

  lemma NullifierPair(a: Fr, b: Fr)
    ensures (set nf | nf in [a, b]) == {a, b}
    ensures (set nf | nf in [a]) == {a}
  {
  }

  ghost predicate FitsCounter(m: Move) {
    m.io.nextIndex + |m.outs| <= U64_MAX
  }

  lemma ShieldStores(
    d: Deployment, s: State, env: Env, who: Address, proof: Proof, pi: ShieldInputs, s': State, m: Move)
    requires Shield(d, s, env, who, proof, pi) == Success(s') || MintRecovery(d, s, env, proof, pi) == Success(s')
    requires m.spends == [] && m.nfs == [] && m.intoTree == Main && m.io == pi.tree && |m.outs| == 1 && FitsCounter(m)
    ensures Moved(s, s', m)
  {
  }

  lemma TransferStores(d: Deployment, s: State, env: Env, proof: Proof, pi: TransferInputs, s': State, m: Move)
    requires ConfidentialTransfer(d, s, env, proof, pi) == Success(s')
    requires m.anchorRoot == pi.anchorRoot && m.frozenRoot == pi.roots.frozen && m.nfs == [pi.nfIn0, pi.nfIn1]
    requires m.fromTree == m.intoTree == Main && m.io == pi.tree && |m.outs| == 2 && FitsCounter(m)
    ensures Moved(s, s', m)
  {
    NullifierPair(pi.nfIn0, pi.nfIn1);
  }

  lemma DvpStores(
    d: Deployment, s: State, env: Env, a: Address, b: Address, proof: Proof, pi: DvpInputs, s': State, m: Move)
    requires SettleDvp(d, s, env, a, b, proof, pi) == Success(s')
    requires m.anchorRoot == pi.anchorRoot && m.frozenRoot == pi.roots.frozen && m.nfs == [pi.nfLegX, pi.nfLegY]
    requires m.fromTree == m.intoTree == Main && m.io == pi.tree && |m.outs| == 2 && FitsCounter(m)
    ensures Moved(s, s', m)
  {
    NullifierPair(pi.nfLegX, pi.nfLegY);
  }

  lemma SettleStores(
    d: Deployment, s: State, env: Env, id: IntentId, proof: Proof, pi: DvpInputs, s': State, m: Move)
    requires SettleIntent(d, s, env, id, proof, pi) == Success(s')
    requires m.anchorRoot == pi.anchorRoot && m.frozenRoot == pi.roots.frozen && m.nfs == [pi.nfLegX, pi.nfLegY]
    requires m.fromTree == Escrow && m.intoTree == Main && m.io == pi.tree && |m.outs| == 2 && FitsCounter(m)
    ensures Moved(s, s', m)
  {
    NullifierPair(pi.nfLegX, pi.nfLegY);
  }

  lemma UnshieldStores(d: Deployment, s: State, env: Env, proof: Proof, pi: UnshieldInputs, s': State, m: Move)
    requires Unshield(d, s, env, proof, pi) == Success(s')
    requires m.anchorRoot == pi.anchorRoot && m.frozenRoot == pi.roots.frozen && m.nfs == [pi.nfIn]
    requires m.fromTree == m.intoTree == Main && m.io == pi.tree && FitsCounter(m)
    requires |m.outs| == if pi.cmChange == 0 then 0 else 1
    ensures Moved(s, s', m)
  {
    NullifierPair(pi.nfIn, pi.nfIn);
  }

  lemma DepositStores(
    d: Deployment, s: State, env: Env, who: Address, id: IntentId, proof: Proof, pi: EscrowLegInputs, s': State,
    m: Move)
    requires EscrowDeposit(d, s, env, who, id, proof, pi) == Success(s')
    requires m.anchorRoot == pi.anchorRoot && m.frozenRoot == pi.roots.frozen && m.nfs == [pi.nfIn]
    requires m.fromTree == Main && m.intoTree == Escrow && m.io == pi.tree && |m.outs| == 1 && FitsCounter(m)
    ensures Moved(s, s', m)
  {
    NullifierPair(pi.nfIn, pi.nfIn);
  }

  lemma RefundStores(
    d: Deployment, s: State, env: Env, who: Address, id: IntentId, proof: Proof, pi: EscrowLegInputs, s': State,
    m: Move)
    requires EscrowRefund(d, s, env, who, id, proof, pi) == Success(s')
    requires m.anchorRoot == pi.anchorRoot && m.frozenRoot == pi.roots.frozen && m.nfs == [pi.nfIn]
    requires m.fromTree == Escrow && m.intoTree == Main && m.io == pi.tree && |m.outs| == 1 && FitsCounter(m)
    ensures Moved(s, s', m)
  {
    NullifierPair(pi.nfIn, pi.nfIn);
  }

  /** The proof of a call attests the call's move and nothing else comes out of it. */
  ghost predicate ProofIsMove(ps: Params, call: Call, w: Witness)
    requires StatementOf(call).Some?
  {
    && MoveOf(call, w).Some?
    && MoveHolds(ps, MoveOf(call, w).value)
    && Commitments(ps.hash, MoveOf(call, w).value.outs) == PublicOutputs(StatementOf(call).value)
  }

  lemma AttestedMint(ps: Params, call: Call, w: Witness)
    requires (call.DoShield? || call.DoMintRecovery?) && Attested(ps, call, w)
    ensures ProofIsMove(ps, call, w)
  {
    ShieldProof(ps, StatementOf(call).value.shield, w, MoveOf(call, w).value);
  }

  lemma AttestedTransfer(ps: Params, call: Call, w: Witness)
    requires call.DoTransfer? && Attested(ps, call, w)
    ensures ProofIsMove(ps, call, w)
  {
    TransferProof(ps, call.transfer, w, MoveOf(call, w).value);
  }

  lemma AttestedUnshield(ps: Params, call: Call, w: Witness)
    requires CollisionFree(ps.hash)
    requires call.DoUnshield? && Attested(ps, call, w)
    ensures ProofIsMove(ps, call, w)
  {
    UnshieldProof(ps, call.unshield, w, MoveOf(call, w).value);
  }

  lemma AttestedSwap(ps: Params, call: Call, w: Witness)
    requires (call.DoSettleDvp? || call.DoSettleIntent?) && Attested(ps, call, w)
    ensures ProofIsMove(ps, call, w)
  {
    DvpProof(ps, StatementOf(call).value.dvp, w, MoveOf(call, w).value);
  }

  lemma AttestedEscrowLeg(ps: Params, call: Call, w: Witness)
    requires (call.DoEscrowDeposit? || call.DoEscrowRefund?) && Attested(ps, call, w)
    ensures ProofIsMove(ps, call, w)
  {
    var pi := if call.DoEscrowDeposit? then call.deposit else call.refund;
    EscrowLegProof(ps, pi, w.escrowed, w.out, MoveOf(call, w).value);
  }

  /** The proof side of every call that carries a proof. */
  lemma AttestedMoveHolds(ps: Params, call: Call, w: Witness)
    requires CollisionFree(ps.hash)
    requires StatementOf(call).Some? && Attested(ps, call, w)
    ensures ProofIsMove(ps, call, w)
  {
    match call
    case DoShield(_, _, _) => AttestedMint(ps, call, w);
    case DoMintRecovery(_, _) => AttestedMint(ps, call, w);
    case DoTransfer(_, _) => AttestedTransfer(ps, call, w);
    case DoUnshield(_, _) => AttestedUnshield(ps, call, w);
    case DoSettleDvp(_, _, _, _) => AttestedSwap(ps, call, w);
    case DoSettleIntent(_, _, _) => AttestedSwap(ps, call, w);
    case DoEscrowDeposit(_, _, _, _) => AttestedEscrowLeg(ps, call, w);
    case DoEscrowRefund(_, _, _, _) => AttestedEscrowLeg(ps, call, w);
  }

  /** The storage side of every call that carries a proof. */
  lemma AcceptedMoved(d: Deployment, s: State, env: Env, call: Call, w: Witness, s': State)
    requires MoveOf(call, w).Some? && FitsCounter(MoveOf(call, w).value)
    requires StatementOf(call).Some? && |MoveOf(call, w).value.outs| == |PublicOutputs(StatementOf(call).value)|
    requires Exec(d, s, env, call) == Success(s')
    ensures Moved(s, s', MoveOf(call, w).value)
  {
    var m := MoveOf(call, w).value;
    match call
    case DoShield(who, proof, pi) => ShieldStores(d, s, env, who, proof, pi, s', m);
    case DoMintRecovery(proof, pi) => ShieldStores(d, s, env, 0, proof, pi, s', m);
    case DoTransfer(proof, pi) => TransferStores(d, s, env, proof, pi, s', m);
    case DoSettleDvp(a, b, proof, pi) => DvpStores(d, s, env, a, b, proof, pi, s', m);
    case DoUnshield(proof, pi) => UnshieldStores(d, s, env, proof, pi, s', m);
    case DoEscrowDeposit(who, id, proof, pi) => DepositStores(d, s, env, who, id, proof, pi, s', m);
    case DoSettleIntent(id, proof, pi) => SettleStores(d, s, env, id, proof, pi, s', m);
    case DoEscrowRefund(who, id, proof, pi) => RefundStores(d, s, env, who, id, proof, pi, s', m);
  }

  /** Every accepted, attested call that carries a proof is a move on both sides. */
  lemma AcceptedIsMove(ps: Params, d: Deployment, s: State, env: Env, call: Call, w: Witness, s': State)
    requires CollisionFree(ps.hash) && ps.depth == d.depth <= 63
    requires StatementOf(call).Some? && Attested(ps, call, w)
    requires Exec(d, s, env, call) == Success(s')
    ensures MoveOf(call, w).Some?
    ensures MoveHolds(ps, MoveOf(call, w).value)
    ensures Moved(s, s', MoveOf(call, w).value)
  {
    AttestedMoveHolds(ps, call, w);
    CapacityIsBelowU64(ps.depth, 63 - ps.depth);
    AcceptedMoved(d, s, env, call, w, s');
  }

  /** A transfer spends and makes notes of one asset, out of one owner's hands. */
  lemma TransferHasOneOwner(ps: Params, call: Call, w: Witness)
    requires call.DoTransfer? && Attested(ps, call, w)
    ensures var m := MoveOf(call, w).value;
            && |m.spends| == |m.outs| == 2
            && m.spends[0].note.ownerPk == m.spends[1].note.ownerPk == ps.hash.one(m.spends[0].ownerSk)
            && m.spends[0].note.assetId == m.spends[1].note.assetId == m.outs[0].assetId == m.outs[1].assetId
  {
  }

  /** The administrative calls leave trees, nullifiers and token movements alone. */
  lemma AdministrativeCallsMoveNothing(d: Deployment, s: State, env: Env, call: Call, s': State)
    requires StatementOf(call).None? && s.config.initialized
    requires Exec(d, s, env, call) == Success(s')
    ensures s'.main == s.main && s'.escrow == s.escrow && s'.nullifiers == s.nullifiers && s'.moves == s.moves
    ensures s'.config.initialized
  {
  }
}
