/** The witness builders of sdk/src/witness.ts: what an owner assembles from the live leaf list and the
    live frozen list satisfies the relation. */
module Wallet {
  import opened Wrappers
  import opened Hashing
  import opened MerkleTree
  import opened IncrementalTree
  import opened FrozenSet
  import opened Notes
  import opened ContractTypes
  import opened Circuits

  // ----- building -----

  /** A note with its spending key and its place in a leaf list. */
  datatype Owned = Owned(note: Note, ownerSk: Fr, index: nat)

  /** Inclusion path from the live leaf list, low leaf and its path from the live frozen list. */
  function BuildSpend(ps: Params, max: Fr, leaves: seq<Fr>, frozenList: seq<Fr>, o: Owned): Spend {
    var sorted := SortedFrozen(frozenList);
    var imt := ImtLeaves(ps.hash, sorted, max);
    var low := LowIndex(sorted, Commitment(ps.hash, o.note), 0);
    Spend(o.note, o.ownerSk, SiblingsOf(ps.hash, leaves, ps.depth, o.index), BitsOf(ps.depth, o.index),
          ImtNode(sorted, max, low), SiblingsOf(ps.hash, imt, ps.depth, low), BitsOf(ps.depth, low))
  }

  function BuildTransition(h: Hash, oldFrontier: seq<Fr>, nextIndex: nat, added: seq<Fr>): TreeIo {
    var t := InsertAll(h, TreeState(oldFrontier, Zero(h, |oldFrontier|)), nextIndex, added);
    TreeIo(oldFrontier, t.frontier, t.root, nextIndex)
  }

  function SpendNullifier(h: Hash, sp: Spend): Fr {
    DeriveNullifier(h, sp.note.rho, sp.ownerSk)
  }

  function NullifierOf(h: Hash, o: Owned): Fr {
    DeriveNullifier(h, o.note.rho, o.ownerSk)
  }

  /** The note's value and asset are the public deposit. */
  function BuildShield(
    ps: Params, kycRoot: Fr, assetsRoot: Fr, auditorPk: Fr, out: Note, fee: Fr, oldFrontier: seq<Fr>, nextIndex: nat)
    : (ShieldInputs, Witness)
  {
    var cm := Commitment(ps.hash, out);
    (ShieldInputs(out.assetId, out.value, kycRoot, assetsRoot, auditorPk, cm, fee,
                  BuildTransition(ps.hash, oldFrontier, nextIndex, [cm])),
     ShieldWitness(out))
  }

  function BuildTransfer(
    ps: Params, anchorRoot: Fr, roots: ComplianceRoots, a: Spend, b: Spend, out0: Note, out1: Note, fee: Fr,
    oldFrontier: seq<Fr>, nextIndex: nat): (TransferInputs, Witness)
  {
    var h := ps.hash;
    var cm0, cm1 := Commitment(h, out0), Commitment(h, out1);
    (TransferInputs(anchorRoot, roots, SpendNullifier(h, a), SpendNullifier(h, b), cm0, cm1, fee,
                    BuildTransition(h, oldFrontier, nextIndex, [cm0, cm1])),
     TransferWitness(a, b, out0, out1))
  }

  /** Without a change note the gated 0 leaf is inserted for the root and the old frontier is kept. */
  function BuildUnshield(
    ps: Params, anchorRoot: Fr, roots: ComplianceRoots, a: Spend, amount: nat, recipient: Fr, change: Option<Note>,
    fee: Fr, oldFrontier: seq<Fr>, nextIndex: nat): (UnshieldInputs, Witness)
  {
    var h := ps.hash;
    var cmChange := if change.Some? then Commitment(h, change.value) else EMPTY_LEAF;
    var io := BuildTransition(h, oldFrontier, nextIndex, [cmChange]);
    (UnshieldInputs(anchorRoot, roots, SpendNullifier(h, a), a.note.assetId, amount, recipient,
                    cmChange, fee, if change.Some? then io else io.(newFrontier := oldFrontier)),
     UnshieldWitness(a, change.Some?, if change.Some? then change.value else Note(a.note.assetId, 0, 0, 0, 0)))
  }

  /** Each leg's output takes the asset of its input. */
  function BuildDvp(
    ps: Params, anchorRoot: Fr, roots: ComplianceRoots, x: Spend, y: Spend, outX: Note, outY: Note,
    feeX: Fr, feeY: Fr, oldFrontier: seq<Fr>, nextIndex: nat): (DvpInputs, Witness)
  {
    var h := ps.hash;
    var nx, ny := outX.(assetId := x.note.assetId), outY.(assetId := y.note.assetId);
    var cmX, cmY := Commitment(h, nx), Commitment(h, ny);
    (DvpInputs(anchorRoot, roots, SpendNullifier(h, x), SpendNullifier(h, y), cmX, cmY, feeX, feeY,
               BuildTransition(h, oldFrontier, nextIndex, [cmX, cmY])),
     DvpWitness(x, y, nx, ny))
  }

  function BuildEscrowLeg(
    ps: Params, anchorRoot: Fr, roots: ComplianceRoots, a: Spend, out: Note, fee: Fr,
    oldFrontier: seq<Fr>, nextIndex: nat): (EscrowLegInputs, Witness)
  {
    var h := ps.hash;
    var n := out.(assetId := a.note.assetId);
    var cm := Commitment(h, n);
    (EscrowLegInputs(anchorRoot, roots, SpendNullifier(h, a), cm, fee,
                     BuildTransition(h, oldFrontier, nextIndex, [cm])),
     EscrowLegWitness(a, n))
  }

  // ----- what is built satisfies the relation -----

  /** The owner holds the key of an in-range note that is a leaf of the list and is not frozen, and the frozen
      root reaches the node that shows so, as it does while the frozen list fits its tree. */
  ghost predicate Spendable(ps: Params, max: Fr, leaves: seq<Fr>, frozenList: seq<Fr>, o: Owned) {
    && o.index < |leaves| <= Pow2(ps.depth)
    && leaves[o.index] == Commitment(ps.hash, o.note)
    && o.note.value < NOTE_VALUE_BOUND
    && o.note.ownerPk == DeriveOwnerPk(ps.hash, o.ownerSk)
    && Commitment(ps.hash, o.note) !in frozenList
    && 0 < Commitment(ps.hash, o.note) < max
    && Reached(frozenList, ps.depth, Commitment(ps.hash, o.note))
  }

  lemma BuiltSpendHolds(ps: Params, max: Fr, leaves: seq<Fr>, frozenList: seq<Fr>, o: Owned)
    requires Spendable(ps, max, leaves, frozenList, o)
    ensures SpendHolds(ps, PerfectRoot(ps.hash, ps.depth, leaves), FrozenRoot(ps.hash, ps.depth, max, frozenList),
                       NullifierOf(ps.hash, o), BuildSpend(ps, max, leaves, frozenList, o))
  {
    var sp := BuildSpend(ps, max, leaves, frozenList, o);
    assert Fold(ps.hash, LeafAt(leaves, o.index), sp.siblings, sp.bits) == PerfectRoot(ps.hash, ps.depth, leaves) by {
      ShiftZeroIsCapacity(o.index, ps.depth);
      PathFolds(ps.hash, leaves, o.index, sp.siblings, sp.bits);
    }
    LowLeafIsWitness(ps.hash, ps.depth, max, frozenList, Commitment(ps.hash, o.note),
                     LowIndex(SortedFrozen(frozenList), Commitment(ps.hash, o.note), 0));
  }

  lemma BuiltTransitionHolds(ps: Params, oldFrontier: seq<Fr>, nextIndex: nat, added: seq<Fr>)
    requires |oldFrontier| == ps.depth && nextIndex + |added| <= Pow2(ps.depth)
    ensures TransitionHolds(ps, BuildTransition(ps.hash, oldFrontier, nextIndex, added), added)
  {
  }

  lemma BuiltGatedTransitionHolds(ps: Params, oldFrontier: seq<Fr>, nextIndex: nat, hasChange: bool, leaf: Fr)
    requires |oldFrontier| == ps.depth && nextIndex < Pow2(ps.depth)
    ensures var io := BuildTransition(ps.hash, oldFrontier, nextIndex, [leaf]);
            GatedTransitionHolds(ps, if hasChange then io else io.(newFrontier := oldFrontier), hasChange, leaf)
  {
    InsertAllOne(ps.hash, TreeState(oldFrontier, Zero(ps.hash, ps.depth)), nextIndex, leaf);
  }

  lemma BuiltShieldHolds(
    ps: Params, kycRoot: Fr, assetsRoot: Fr, auditorPk: Fr, out: Note, fee: Fr, oldFrontier: seq<Fr>, nextIndex: nat)
    requires out.value < NOTE_VALUE_BOUND && |oldFrontier| == ps.depth && nextIndex < Pow2(ps.depth)
    ensures var (pi, w) := BuildShield(ps, kycRoot, assetsRoot, auditorPk, out, fee, oldFrontier, nextIndex);
            && Holds(ps, ShieldStatement(pi), w)
            && pi.assetId == out.assetId && pi.amount == out.value && pi.fee == fee && pi.auditorPk == auditorPk
            && pi.kycRoot == kycRoot && pi.assetsRoot == assetsRoot
  {
    BuiltTransitionHolds(ps, oldFrontier, nextIndex, [Commitment(ps.hash, out)]);
  }

  /** One key owns both inputs, all notes are of one asset, the amounts agree in the field. */
  ghost predicate SpendTerms(ps: Params, a: Spend, b: Spend, out0: Note, out1: Note, fee: Fr) {
    && a.ownerSk == b.ownerSk && a.note.assetId == b.note.assetId == out0.assetId == out1.assetId
    && out0.value < NOTE_VALUE_BOUND && out1.value < NOTE_VALUE_BOUND && fee < ps.modulus
    && SameInField(ps, a.note.value + b.note.value, out0.value + out1.value + fee)
  }

  /** Under any encodings of the two nullifiers, the builder's own included. */
  lemma BuiltTransferHolds(
    ps: Params, anchorRoot: Fr, roots: ComplianceRoots, a: Spend, b: Spend, out0: Note, out1: Note, fee: Fr,
    oldFrontier: seq<Fr>, nextIndex: nat, nf0: Fr, nf1: Fr)
    requires SpendHolds(ps, anchorRoot, roots.frozen, ps.decode(nf0), a)
    requires SpendHolds(ps, anchorRoot, roots.frozen, ps.decode(nf1), b)
    requires SpendTerms(ps, a, b, out0, out1, fee)
    requires |oldFrontier| == ps.depth && nextIndex + 2 <= Pow2(ps.depth)
    ensures var (pi, w) := BuildTransfer(ps, anchorRoot, roots, a, b, out0, out1, fee, oldFrontier, nextIndex);
            && Holds(ps, TransferStatement(pi.(nfIn0 := nf0, nfIn1 := nf1)), w)
            && pi.anchorRoot == anchorRoot && pi.roots == roots && pi.fee == fee
            && pi.nfIn0 == ps.hash.two(a.note.rho, a.ownerSk) && pi.nfIn1 == ps.hash.two(b.note.rho, b.ownerSk)
  {
    BuiltTransitionHolds(ps, oldFrontier, nextIndex, [Commitment(ps.hash, out0), Commitment(ps.hash, out1)]);
  }

  lemma BuiltUnshieldHolds(
    ps: Params, anchorRoot: Fr, roots: ComplianceRoots, a: Spend, amount: nat, recipient: Fr, change: Option<Note>,
    fee: Fr, oldFrontier: seq<Fr>, nextIndex: nat)
    requires fee < ps.modulus && amount < NOTE_VALUE_BOUND
    requires SpendHolds(ps, anchorRoot, roots.frozen, ps.decode(SpendNullifier(ps.hash, a)), a)
    requires change.Some? ==> change.value.assetId == a.note.assetId && change.value.value < NOTE_VALUE_BOUND
    requires SameInField(ps, a.note.value, amount + (if change.Some? then change.value.value else 0) + fee)
    requires |oldFrontier| == ps.depth && nextIndex < Pow2(ps.depth)
    ensures var (pi, w) := BuildUnshield(
              ps, anchorRoot, roots, a, amount, recipient, change, fee, oldFrontier, nextIndex);
            && Holds(ps, UnshieldStatement(pi), w)
            && pi.anchorRoot == anchorRoot && pi.roots == roots && pi.fee == fee
            && pi.assetId == a.note.assetId && pi.amount == amount && pi.recipient == recipient
            && pi.nfIn == ps.hash.two(a.note.rho, a.ownerSk)
  {
    BuiltGatedTransitionHolds(ps, oldFrontier, nextIndex, change.Some?,
                              if change.Some? then Commitment(ps.hash, change.value) else EMPTY_LEAF);
  }

  lemma BuiltDvpHolds(
    ps: Params, anchorRoot: Fr, roots: ComplianceRoots, x: Spend, y: Spend, outX: Note, outY: Note,
    feeX: Fr, feeY: Fr, oldFrontier: seq<Fr>, nextIndex: nat)
    requires feeX < ps.modulus && feeY < ps.modulus
    requires outX.value < NOTE_VALUE_BOUND && outY.value < NOTE_VALUE_BOUND
    requires SpendHolds(ps, anchorRoot, roots.frozen, ps.decode(SpendNullifier(ps.hash, x)), x)
    requires SpendHolds(ps, anchorRoot, roots.frozen, ps.decode(SpendNullifier(ps.hash, y)), y)
    requires SameInField(ps, x.note.value, outX.value + feeX) && SameInField(ps, y.note.value, outY.value + feeY)
    requires |oldFrontier| == ps.depth && nextIndex + 2 <= Pow2(ps.depth)
    ensures var (pi, w) := BuildDvp(ps, anchorRoot, roots, x, y, outX, outY, feeX, feeY, oldFrontier, nextIndex);
            && Holds(ps, DvpStatement(pi), w)
            && pi.anchorRoot == anchorRoot && pi.roots == roots && pi.feeX == feeX && pi.feeY == feeY
            && pi.nfLegX == ps.hash.two(x.note.rho, x.ownerSk) && pi.nfLegY == ps.hash.two(y.note.rho, y.ownerSk)
  {
    var (pi, w) := BuildDvp(ps, anchorRoot, roots, x, y, outX, outY, feeX, feeY, oldFrontier, nextIndex);
    BuiltTransitionHolds(ps, oldFrontier, nextIndex, [pi.cmOutX, pi.cmOutY]);
  }

  lemma BuiltEscrowLegHolds(
    ps: Params, anchorRoot: Fr, roots: ComplianceRoots, a: Spend, out: Note, fee: Fr,
    oldFrontier: seq<Fr>, nextIndex: nat)
    requires fee < ps.modulus && out.value < NOTE_VALUE_BOUND
    requires SpendHolds(ps, anchorRoot, roots.frozen, ps.decode(SpendNullifier(ps.hash, a)), a)
    requires SameInField(ps, a.note.value, out.value + fee)
    requires |oldFrontier| == ps.depth && nextIndex < Pow2(ps.depth)
    ensures var (pi, w) := BuildEscrowLeg(ps, anchorRoot, roots, a, out, fee, oldFrontier, nextIndex);
            && Holds(ps, EscrowDepositStatement(pi), w) && Holds(ps, EscrowRefundStatement(pi), w)
            && pi.anchorRoot == anchorRoot && pi.roots == roots && pi.fee == fee
            && pi.nfIn == ps.hash.two(a.note.rho, a.ownerSk)
  {
    var (pi, w) := BuildEscrowLeg(ps, anchorRoot, roots, a, out, fee, oldFrontier, nextIndex);
    BuiltTransitionHolds(ps, oldFrontier, nextIndex, [pi.cmOut]);
  }
}
