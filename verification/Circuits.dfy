/** What an accepted proof attests. Only the constraints the ledger theorems need are named: opening and
    ownership, nullifier, inclusion, frozen non-membership, range, conservation in the field, and the
    tree transition. The circuits impose more, so nothing here is stronger than they are. */
module Circuits {
  import opened Hashing
  import opened MerkleTree
  import opened IncrementalTree
  import opened FrozenSet
  import opened Notes
  import opened ContractTypes
  import PrimeField

  /** `decode` is the field element the host reads from a public scalar. It is applied to nullifiers, which
      the contract compares as raw scalars; the other public scalars are read as they stand. */
  datatype Params = Params(hash: Hash, modulus: nat, depth: nat, decode: Fr -> Fr)

  /** The private witness for one spent note. */
  datatype Spend = Spend(
    note: Note, ownerSk: Fr, siblings: seq<Fr>, bits: seq<bool>,
    low: ImtLowLeaf, lowSiblings: seq<Fr>, lowBits: seq<bool>)

  datatype Witness =
    | ShieldWitness(minted: Note)
    | TransferWitness(in0: Spend, in1: Spend, out0: Note, out1: Note)
    | UnshieldWitness(spent: Spend, hasChange: bool, change: Note)
    | DvpWitness(legX: Spend, legY: Spend, outX: Note, outY: Note)
    | EscrowLegWitness(escrowed: Spend, out: Note)

  ghost predicate SpendHolds(ps: Params, anchorRoot: Fr, frozenRoot: Fr, nf: Fr, w: Spend) {
    && w.note.value < NOTE_VALUE_BOUND
    && w.note.ownerPk == DeriveOwnerPk(ps.hash, w.ownerSk)
    && nf == DeriveNullifier(ps.hash, w.note.rho, w.ownerSk)
    && |w.siblings| == |w.bits| == ps.depth
    && Fold(ps.hash, Commitment(ps.hash, w.note), w.siblings, w.bits) == anchorRoot
    && NonMember(ps.hash, ps.depth, frozenRoot, Commitment(ps.hash, w.note), w.low, w.lowSiblings, w.lowBits)
  }

  ghost predicate MintHolds(ps: Params, cm: Fr, note: Note) {
    note.value < NOTE_VALUE_BOUND && cm == Commitment(ps.hash, note)
  }

  /** The in-circuit transition; bit-decomposing every append index bounds it below 2^depth. */
  ghost predicate TransitionHolds(ps: Params, io: TreeIo, leaves: seq<Fr>) {
    && |io.oldFrontier| == ps.depth
    && io.nextIndex + |leaves| <= Pow2(ps.depth)
    && TreeState(io.newFrontier, io.newRoot)
       == InsertAll(ps.hash, TreeState(io.oldFrontier, Zero(ps.hash, ps.depth)), io.nextIndex, leaves)
  }

  /** The unshield variant: the gated leaf is always inserted for the root, but the frontier keeps the
      old one when there is no change note. */
  ghost predicate GatedTransitionHolds(ps: Params, io: TreeIo, hasChange: bool, leaf: Fr) {
    && |io.oldFrontier| == ps.depth
    && io.nextIndex < Pow2(ps.depth)
    && var t := Insert(ps.hash, io.oldFrontier, io.nextIndex, leaf);
       io.newRoot == t.root && io.newFrontier == if hasChange then t.frontier else io.oldFrontier
  }

  /** An equality of field elements. */
  ghost predicate SameInField(ps: Params, a: nat, b: nat) {
    ps.modulus > 0 && a % ps.modulus == b % ps.modulus
  }

  ghost predicate EscrowLegHolds(ps: Params, pi: EscrowLegInputs, w: Spend, out: Note) {
    && SpendHolds(ps, pi.anchorRoot, pi.roots.frozen, ps.decode(pi.nfIn), w)
    && MintHolds(ps, pi.cmOut, out)
    && out.assetId == w.note.assetId
    && pi.fee < ps.modulus
    && SameInField(ps, w.note.value, out.value + pi.fee)
    && TransitionHolds(ps, pi.tree, [pi.cmOut])
  }

  ghost predicate Holds(ps: Params, st: Statement, w: Witness) {
    match st
    case ShieldStatement(pi) =>
      && w.ShieldWitness?
      && MintHolds(ps, pi.cmOut, w.minted)
      && w.minted.assetId == pi.assetId && w.minted.value == pi.amount
      && TransitionHolds(ps, pi.tree, [pi.cmOut])
    case TransferStatement(pi) =>
      && w.TransferWitness?
      && SpendHolds(ps, pi.anchorRoot, pi.roots.frozen, ps.decode(pi.nfIn0), w.in0)
      && SpendHolds(ps, pi.anchorRoot, pi.roots.frozen, ps.decode(pi.nfIn1), w.in1)
      && w.in0.ownerSk == w.in1.ownerSk
      && MintHolds(ps, pi.cmOut0, w.out0)
      && MintHolds(ps, pi.cmOut1, w.out1)
      && w.in0.note.assetId == w.in1.note.assetId == w.out0.assetId == w.out1.assetId
      && pi.fee < ps.modulus
      && SameInField(ps, w.in0.note.value + w.in1.note.value, w.out0.value + w.out1.value + pi.fee)
      && TransitionHolds(ps, pi.tree, [pi.cmOut0, pi.cmOut1])
    case UnshieldStatement(pi) =>
      && w.UnshieldWitness?
      && SpendHolds(ps, pi.anchorRoot, pi.roots.frozen, ps.decode(pi.nfIn), w.spent)
      && w.spent.note.assetId == pi.assetId == w.change.assetId
      && pi.amount < NOTE_VALUE_BOUND && w.change.value < NOTE_VALUE_BOUND
      && (!w.hasChange ==> w.change.value == 0)
      && pi.fee < ps.modulus
      && SameInField(ps, w.spent.note.value, pi.amount + w.change.value + pi.fee)
      && pi.cmChange == (if w.hasChange then Commitment(ps.hash, w.change) else EMPTY_LEAF)
      && GatedTransitionHolds(ps, pi.tree, w.hasChange, pi.cmChange)
    case DvpStatement(pi) =>
      && w.DvpWitness?
      && SpendHolds(ps, pi.anchorRoot, pi.roots.frozen, ps.decode(pi.nfLegX), w.legX)
      && SpendHolds(ps, pi.anchorRoot, pi.roots.frozen, ps.decode(pi.nfLegY), w.legY)
      && MintHolds(ps, pi.cmOutX, w.outX)
      && MintHolds(ps, pi.cmOutY, w.outY)
      && w.outX.assetId == w.legX.note.assetId && w.outY.assetId == w.legY.note.assetId
      && pi.feeX < ps.modulus && pi.feeY < ps.modulus
      && SameInField(ps, w.legX.note.value, w.outX.value + pi.feeX)
      && SameInField(ps, w.legY.note.value, w.outY.value + pi.feeY)
      && TransitionHolds(ps, pi.tree, [pi.cmOutX, pi.cmOutY])
    case EscrowDepositStatement(pi) =>
      w.EscrowLegWitness? && EscrowLegHolds(ps, pi, w.escrowed, w.out)
    case EscrowRefundStatement(pi) =>
      w.EscrowLegWitness? && EscrowLegHolds(ps, pi, w.escrowed, w.out)
  }

  /** Soundness of the proof system: an accepted proof has a witness. */
  ghost predicate SoundVerifier(ps: Params, verify: Verifier) {
    forall st, proof :: verify(st, proof) ==> exists w :: Holds(ps, st, w)
  }

  // ----- the integer meaning of a fee -----

  /** Fees are not range-checked: a field element above half the modulus is a negative amount. */
  function SignedFee(ps: Params, fee: Fr): int {
    if 2 * fee < ps.modulus then fee else fee - ps.modulus
  }

  /** On range-checked amounts a field equation is exactly an integer equation with a signed fee. */
  lemma FieldConservationIsSigned(ps: Params, ins: nat, outs: nat, fee: Fr)
    requires fee < ps.modulus && 2 * ins < ps.modulus && 2 * outs < ps.modulus
    ensures SameInField(ps, ins, outs + fee) <==> ins == outs + SignedFee(ps, fee)
  {
    if SameInField(ps, ins, outs + fee) {
      CongruentWithin(ins, outs + fee, ps.modulus);
    } else if ins == outs + SignedFee(ps, fee) {
      PrimeField.MultipleIsZero(ps.modulus, -1);
      PrimeField.SameResidue(ins, outs + fee, ps.modulus);
    }
  }

  /** The circuits' promise, exactly: a leg that conserves in the field pays out no more than it takes in
      exactly when its fee lies below half the modulus. */
  lemma NoWrapExactlyBelowHalf(ps: Params, ins: nat, outs: nat, fee: Fr)
    requires fee < ps.modulus && 2 * ins < ps.modulus && 2 * outs < ps.modulus
    requires SameInField(ps, ins, outs + fee)
    ensures outs <= ins <==> 2 * fee < ps.modulus
  {
    FieldConservationIsSigned(ps, ins, outs, fee);
  }

  /** The fee that makes any shortfall conserve in the field. */
  lemma ShortfallHasFee(ps: Params, ins: nat, outs: nat)
    requires ins < outs && 2 * ins < ps.modulus && 2 * outs < ps.modulus
    ensures var fee := ps.modulus - (outs - ins);
            fee < ps.modulus && SameInField(ps, ins, outs + fee) && SignedFee(ps, fee) == ins - outs
  {
    FieldConservationIsSigned(ps, ins, outs, ps.modulus - (outs - ins));
  }

  lemma CongruentWithin(a: int, b: int, p: int)
    requires p > 0 && a % p == b % p
    requires -2 * p < a - b < p
    ensures a - b == 0 || a - b == -p
  {
    var qa, qb, r := a / p, b / p, a % p;
    PrimeField.DivisionSplits(a, p);
    PrimeField.DivisionSplits(b, p);
    assert a - b == p * (qa - qb);
    PrimeField.MultiplesAreSpread(p, qa - qb);
  }
}
