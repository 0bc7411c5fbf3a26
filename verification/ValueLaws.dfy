/** Where conservation ends, exactly: how far one call or one run keeps what is unspent and paid out covered
    by deposits and recovery mints, which accepted calls break that cover, and a check that rules them out. */
module ValueLaws {
  import opened Hashing
  import opened MerkleTree
  import opened Notes
  import opened ContractTypes
  import opened Circuits
  import opened ContractSpec
  import opened Moves
  import opened Ledger
  import opened Conservation
  import opened Wallet
  import opened HonestCalls

  // ----- a leaf named twice -----

  /** Two spends of one call that address one position are one note with one nullifier. */
  lemma SamePositionSameNote(ps: Params, w: World, m: Move, s': State)
    requires CollisionFree(ps.hash)
    requires Consistent(ps, w) && MoveHolds(ps, m) && Moved(w.state, s', m) && |m.spends| == 2
    requires IndexOf(m.spends[0].bits, 0) == IndexOf(m.spends[1].bits, 0)
    ensures m.spends[0].note == m.spends[1].note && ps.decode(m.nfs[0]) == ps.decode(m.nfs[1])
  {
    var a, b := m.spends[0], m.spends[1];
    SpendsOpenLeaves(ps, w, m, s');
    assert a in m.spends && b in m.spends;
    CommitmentFixesNullifier(ps.hash, a.note, a.ownerSk, b.note, b.ownerSk);
  }

  /** The value of the leaf that a call names twice. */
  function NamedTwice(asset: Fr, m: Move): nat {
    if |m.spends| == 2 && IndexOf(m.spends[0].bits, 0) == IndexOf(m.spends[1].bits, 0)
    then NoteWorth(asset, m.spends[1].note) else 0
  }

  /** The value of what a call names that was consumed before, by an earlier call or by its own first spend. */
  function NamedAgain(asset: Fr, m: Move, spent: set<Position>): nat {
    (if |m.spends| > 0 && PositionOf(m.fromTree, m.spends[0]) in spent then NoteWorth(asset, m.spends[0].note) else 0)
    + (if |m.spends| > 1 && PositionOf(m.fromTree, m.spends[1]) in spent + {PositionOf(m.fromTree, m.spends[0])}
       then NoteWorth(asset, m.spends[1].note) else 0)
  }

  lemma ConsumeOneOrTwo(asset: Fr, m: Move, spent: set<Position>)
    requires |m.spends| <= 2
    ensures Consume(asset, m.fromTree, m.spends, spent).1 == NamedAgain(asset, m, spent)
  {
    var t := m.fromTree;
    assert Consume(asset, t, [], spent) == (spent, 0);
    if |m.spends| == 1 {
      assert m.spends[..0] == [];
    } else if |m.spends| == 2 {
      assert m.spends[..1] == [m.spends[0]] && m.spends[..1][..0] == [];
    }
  }

  lemma FreshIsNamedTwice(asset: Fr, m: Move, spent: set<Position>)
    requires |m.spends| <= 2 && spent !! Consumed(m.fromTree, m.spends)
    ensures NamedAgain(asset, m, spent) == NamedTwice(asset, m)
  {
    assert |m.spends| > 0 ==> m.spends[0] in m.spends;
    assert |m.spends| > 1 ==> m.spends[1] in m.spends;
  }

  /** One accepted call adds to the repeats exactly what it names again. While each nullifier is stored in one
      encoding that is what it names twice, which takes two encodings of one nullifier, equal ones included.
      Equal nullifiers alone do not name a position twice. */
  lemma StepRepeatsExactly(ps: Params, d: Deployment, asset: Fr, w: World, step: Step)
    requires Assumed(ps, d) && Consistent(ps, w) && FaithfulStep(ps, d, step)
    requires Accepted(d, w, step) && MoveOf(step.call, step.evidence).Some?
    ensures var m := MoveOf(step.call, step.evidence).value;
            var w' := Advance(ps, d, asset, w, step);
            && w'.books.repeats == w.books.repeats + NamedAgain(asset, m, w.spent)
            && (OneEncodingEach(ps, w'.state.nullifiers) ==> NamedAgain(asset, m, w.spent) == NamedTwice(asset, m))
            && (NamedTwice(asset, m) > 0 ==> |m.nfs| == 2 && ps.decode(m.nfs[0]) == ps.decode(m.nfs[1]))
  {
    var s' := Exec(d, w.state, step.env, step.call).value;
    var m := MoveOf(step.call, step.evidence).value;
    AcceptedIsAttested(ps, d, w.state, step);
    AcceptedIsMove(ps, d, w.state, step.env, step.call, step.evidence, s');
    AdvanceBooks(ps, d, asset, w, step, s');
    AtMostTwoSpends(step.call, step.evidence);
    ConsumeOneOrTwo(asset, m, w.spent);
    if NamedTwice(asset, m) > 0 {
      SamePositionSameNote(ps, w, m, s');
    }
    if OneEncodingEach(ps, Advance(ps, d, asset, w, step).state.nullifiers) {
      StepConsumesFresh(ps, d, asset, w, step);
      FreshIsNamedTwice(asset, m, w.spent);
    }
  }

  lemma AtMostTwoSpends(call: Call, w: Witness)
    requires MoveOf(call, w).Some?
    ensures |MoveOf(call, w).value.spends| == |MoveOf(call, w).value.nfs| <= 2
  {
  }

  // ----- the cover -----

  /** Deposits and recovery mints beyond what is unspent or paid out. */
  ghost function Cover(ps: Params, asset: Fr, w: World): int {
    Deposited(asset, w.state.moves) + w.books.recovered - UnspentIn(ps, asset, w) - PaidOut(asset, w.state.moves)
  }

  /** One accepted call moves the cover by its signed fees less what it names again, so it keeps the cover
      exactly when the fees make up for that. */
  lemma StepCoverExactly(ps: Params, d: Deployment, asset: Fr, w: World, step: Step)
    requires Assumed(ps, d) && Consistent(ps, w) && FaithfulStep(ps, d, step) && Balanced(ps, asset, w)
    requires Accepted(d, w, step) && MoveOf(step.call, step.evidence).Some?
    ensures var m := MoveOf(step.call, step.evidence).value;
            var fees := Fees(ps, step.call, step.evidence, asset);
            var w' := Advance(ps, d, asset, w, step);
            var repeats := NamedAgain(asset, m, w.spent);
            && Cover(ps, asset, w') == Cover(ps, asset, w) + fees - repeats
            && (Cover(ps, asset, w') >= Cover(ps, asset, w) <==> repeats <= fees)
  {
    StepBalances(ps, d, asset, w, step);
    AdvanceBooks(ps, d, asset, w, step, Exec(d, w.state, step.env, step.call).value);
    StepRepeatsExactly(ps, d, asset, w, step);
  }

  /** What is unspent or paid out does not exceed deposits and recovery mints. */
  ghost predicate Covered(ps: Params, asset: Fr, w: World) {
    UnspentIn(ps, asset, w) + PaidOut(asset, w.state.moves) <= Deposited(asset, w.state.moves) + w.books.recovered
  }

  /** A run on balanced books, such as any run from a fresh deployment, ends covered exactly when its fees make
      up for what was named twice. */
  lemma RunCoveredExactly(ps: Params, d: Deployment, asset: Fr, w: World, steps: seq<Step>)
    requires Assumed(ps, d) && Consistent(ps, w) && Faithful(ps, d, steps) && Balanced(ps, asset, w)
    ensures var w' := Run(ps, d, asset, w, steps);
            Covered(ps, asset, w') <==> w'.books.repeats <= w'.books.fees
  {
    RunBalances(ps, d, asset, w, steps);
  }

  // ----- accepted calls at the boundary -----

  /** The step a caller takes with a transfer built from the live state. */
  function TransferStep(
    ps: Params, max: Fr, w: World, env: Env, proof: Proof, roots: ComplianceRoots,
    a: Owned, b: Owned, out0: Note, out1: Note, fee: Fr, nf0: Fr, nf1: Fr): (step: Step)
    ensures step.call.DoTransfer? && step.call.proof == proof && step.env == env
  {
    var (call, evidence) := TransferUnder(ps, max, w, proof, roots, a, b, out0, out1, fee, nf0, nf1);
    Step(env, call, evidence)
  }

  /** What is counted again when a and b are spent together. */
  function CountedAgain(asset: Fr, w: World, a: Owned, b: Owned): nat {
    (if Position(Main, a.index) in w.spent then NoteWorth(asset, a.note) else 0)
    + (if Position(Main, b.index) in w.spent || a.index == b.index then NoteWorth(asset, b.note) else 0)
  }

  lemma StepNamesPositions(
    ps: Params, max: Fr, asset: Fr, w: World, env: Env, proof: Proof, roots: ComplianceRoots,
    a: Owned, b: Owned, out0: Note, out1: Note, fee: Fr, nf0: Fr, nf1: Fr)
    requires Owns(ps, max, w, Main, a) && Owns(ps, max, w, Main, b)
    ensures var step := TransferStep(ps, max, w, env, proof, roots, a, b, out0, out1, fee, nf0, nf1);
            && MoveOf(step.call, step.evidence).Some?
            && var m := MoveOf(step.call, step.evidence).value;
            && Consumed(m.fromTree, m.spends) == {Position(Main, a.index), Position(Main, b.index)}
            && NamedAgain(asset, m, w.spent) == CountedAgain(asset, w, a, b)
            && Fees(ps, step.call, step.evidence, asset) == FeeIn(ps, asset, a.note, fee)
  {
    var step := TransferStep(ps, max, w, env, proof, roots, a, b, out0, out1, fee, nf0, nf1);
    var m := MoveOf(step.call, step.evidence).value;
    LiveSpendIsAt(ps, max, w, Main, a);
    LiveSpendIsAt(ps, max, w, Main, b);
    assert m.spends[0] in m.spends && m.spends[1] in m.spends;
  }

  lemma TransferConsumes(
    ps: Params, d: Deployment, max: Fr, w: World, env: Env, proof: Proof, roots: ComplianceRoots,
    a: Owned, b: Owned, out0: Note, out1: Note, fee: Fr, nf0: Fr, nf1: Fr)
    requires Owns(ps, max, w, Main, a) && Owns(ps, max, w, Main, b)
    ensures var step := TransferStep(ps, max, w, env, proof, roots, a, b, out0, out1, fee, nf0, nf1);
            Accepted(d, w, step) ==> ConsumedBy(d, w, step) == {Position(Main, a.index), Position(Main, b.index)}
  {
    StepNamesPositions(ps, max, 0, w, env, proof, roots, a, b, out0, out1, fee, nf0, nf1);
  }

  /** What that step does to the books, equal inputs, consumed inputs and wrapped fees included. */
  lemma LiveTransferBooks(
    ps: Params, d: Deployment, max: Fr, asset: Fr, w: World, env: Env, proof: Proof, roots: ComplianceRoots,
    a: Owned, b: Owned, out0: Note, out1: Note, fee: Fr, nf0: Fr, nf1: Fr)
    requires Live(ps, d, max, w) && Compliant(w.state, roots) && HasRoom(ps, w, Main, 2)
    requires Owns(ps, max, w, Main, a) && Owns(ps, max, w, Main, b) && TransferTerms(ps, a, b, out0, out1, fee)
    requires Names(ps, w, nf0, a) && Names(ps, w, nf1, b)
    requires var step := TransferStep(ps, max, w, env, proof, roots, a, b, out0, out1, fee, nf0, nf1);
             d.verify(TransferStatement(step.call.transfer), proof)
    ensures var step := TransferStep(ps, max, w, env, proof, roots, a, b, out0, out1, fee, nf0, nf1);
            var w' := Advance(ps, d, asset, w, step);
            && Accepted(d, w, step) && FaithfulStep(ps, d, step)
            && w'.books.fees == w.books.fees + FeeIn(ps, asset, a.note, fee)
            && w'.books.repeats == w.books.repeats + CountedAgain(asset, w, a, b)
  {
    var step := TransferStep(ps, max, w, env, proof, roots, a, b, out0, out1, fee, nf0, nf1);
    NamedPasses(ps, d, max, w, env, proof, roots, a, b, out0, out1, fee, nf0, nf1);
    AdvanceBooks(ps, d, asset, w, step, Exec(d, w.state, env, step.call).value);
    StepRepeatsExactly(ps, d, asset, w, step);
    StepNamesPositions(ps, max, asset, w, env, proof, roots, a, b, out0, out1, fee, nf0, nf1);
  }

  /** The transfer satisfies the relation; if its proof verifies it is accepted, and then the cover of its
      asset moves by the signed fee less what was named twice. */
  ghost predicate MovesCover(
    ps: Params, d: Deployment, asset: Fr, w: World, step: Step, signedFee: int, repeats: nat)
    requires step.call.DoTransfer?
  {
    && AcceptedIfProved(ps, d, w.state, step.env, step.call, step.evidence)
    && (d.verify(TransferStatement(step.call.transfer), step.call.proof) ==>
          var w' := Advance(ps, d, asset, w, step);
          && Accepted(d, w, step)
          && w'.books.repeats == w.books.repeats + repeats
          && Cover(ps, asset, w') == Cover(ps, asset, w) + signedFee - repeats)
  }

  /** On balanced books the cover is the fees less the repeats. */
  lemma BooksMoveCover(ps: Params, asset: Fr, w: World, w': World, fees: int, repeats: int)
    requires Balanced(ps, asset, w) && Balanced(ps, asset, w')
    requires w'.books.fees == w.books.fees + fees && w'.books.repeats == w.books.repeats + repeats
    ensures Cover(ps, asset, w') == Cover(ps, asset, w) + fees - repeats
  {
  }

  lemma LiveTransferMovesCover(
    ps: Params, d: Deployment, max: Fr, w: World, env: Env, proof: Proof, roots: ComplianceRoots,
    a: Owned, b: Owned, out0: Note, out1: Note, fee: Fr, nf0: Fr, nf1: Fr)
    requires Live(ps, d, max, w) && Compliant(w.state, roots) && HasRoom(ps, w, Main, 2)
    requires Owns(ps, max, w, Main, a) && Owns(ps, max, w, Main, b) && TransferTerms(ps, a, b, out0, out1, fee)
    requires Names(ps, w, nf0, a) && Names(ps, w, nf1, b)
    requires Balanced(ps, a.note.assetId, w)
    ensures MovesCover(ps, d, a.note.assetId, w,
                       TransferStep(ps, max, w, env, proof, roots, a, b, out0, out1, fee, nf0, nf1),
                       SignedFee(ps, fee), CountedAgain(a.note.assetId, w, a, b))
  {
    var asset := a.note.assetId;
    var step := TransferStep(ps, max, w, env, proof, roots, a, b, out0, out1, fee, nf0, nf1);
    LiveTransferHolds(ps, d, max, w, roots, a, b, out0, out1, fee, nf0, nf1);
    TransferGatesPass(ps, d, w.state, env, proof, step.call.transfer, step.evidence);
    if d.verify(TransferStatement(step.call.transfer), proof) {
      LiveTransferBooks(ps, d, max, asset, w, env, proof, roots, a, b, out0, out1, fee, nf0, nf1);
      StepBalances(ps, d, asset, w, step);
      BooksMoveCover(ps, asset, w, Advance(ps, d, asset, w, step), SignedFee(ps, fee), CountedAgain(asset, w, a, b));
    }
  }

  /** An owned note that no call consumed yet, ready to be spent under its own nullifier. */
  ghost predicate Untouched(ps: Params, max: Fr, w: World, o: Owned) {
    Ready(ps, max, w, Main, o) && Position(Main, o.index) !in w.spent
  }

  function HonestStep(
    ps: Params, max: Fr, w: World, env: Env, proof: Proof, roots: ComplianceRoots,
    a: Owned, b: Owned, out0: Note, out1: Note, fee: Fr): (step: Step)
    ensures step.call.DoTransfer? && step.call.proof == proof && step.env == env
  {
    TransferStep(ps, max, w, env, proof, roots, a, b, out0, out1, fee, NullifierOf(ps.hash, a), NullifierOf(ps.hash, b))
  }

  lemma HonestStepMovesCover(
    ps: Params, d: Deployment, max: Fr, w: World, env: Env, proof: Proof, roots: ComplianceRoots,
    a: Owned, b: Owned, out0: Note, out1: Note, fee: Fr)
    requires Live(ps, d, max, w) && Compliant(w.state, roots) && HasRoom(ps, w, Main, 2)
    requires Untouched(ps, max, w, a) && Untouched(ps, max, w, b) && TransferTerms(ps, a, b, out0, out1, fee)
    requires Balanced(ps, a.note.assetId, w)
    ensures MovesCover(ps, d, a.note.assetId, w, HonestStep(ps, max, w, env, proof, roots, a, b, out0, out1, fee),
                       SignedFee(ps, fee), if a.index == b.index then b.note.value else 0)
  {
    LiveTransferMovesCover(ps, d, max, w, env, proof, roots, a, b, out0, out1, fee,
                           NullifierOf(ps.hash, a), NullifierOf(ps.hash, b));
  }

  /** What the outputs are worth beyond the inputs. */
  function Shortfall(a: Owned, b: Owned, out0: Note, out1: Note): int {
    out0.value + out1.value - (a.note.value + b.note.value)
  }

  /** The fee that represents a shortfall in the field. */
  function WrappedFee(ps: Params, a: Owned, b: Owned, out0: Note, out1: Note): Fr
    requires Shortfall(a, b, out0, out1) <= ps.modulus
  {
    ps.modulus - Shortfall(a, b, out0, out1)
  }

  /** The missing range check: two distinct notes can be turned into outputs worth more than they are, with
      the fee that represents the shortfall, and the cover falls by it. */
  lemma WrappedFeeIsAccepted(
    ps: Params, d: Deployment, max: Fr, w: World, env: Env, proof: Proof, roots: ComplianceRoots,
    a: Owned, b: Owned, out0: Note, out1: Note)
    requires Live(ps, d, max, w) && Compliant(w.state, roots) && HasRoom(ps, w, Main, 2)
    requires Untouched(ps, max, w, a) && Untouched(ps, max, w, b) && a.index != b.index
    requires a.ownerSk == b.ownerSk && a.note.assetId == b.note.assetId == out0.assetId == out1.assetId
    requires out0.value < NOTE_VALUE_BOUND && out1.value < NOTE_VALUE_BOUND
    requires Shortfall(a, b, out0, out1) > 0
    requires Balanced(ps, a.note.assetId, w)
    ensures Shortfall(a, b, out0, out1) <= ps.modulus
    ensures MovesCover(
              ps, d, a.note.assetId, w,
              HonestStep(ps, max, w, env, proof, roots, a, b, out0, out1, WrappedFee(ps, a, b, out0, out1)),
              -Shortfall(a, b, out0, out1), 0)
  {
    WrappedFeeTerms(ps, a, b, out0, out1);
    HonestStepMovesCover(ps, d, max, w, env, proof, roots, a, b, out0, out1, WrappedFee(ps, a, b, out0, out1));
  }

  lemma WrappedFeeTerms(ps: Params, a: Owned, b: Owned, out0: Note, out1: Note)
    requires ps.modulus >= 8 * NOTE_VALUE_BOUND
    requires a.ownerSk == b.ownerSk && a.note.assetId == b.note.assetId == out0.assetId == out1.assetId
    requires out0.value < NOTE_VALUE_BOUND && out1.value < NOTE_VALUE_BOUND
    requires Shortfall(a, b, out0, out1) > 0
    ensures Shortfall(a, b, out0, out1) <= ps.modulus
    ensures TransferTerms(ps, a, b, out0, out1, WrappedFee(ps, a, b, out0, out1))
    ensures SignedFee(ps, WrappedFee(ps, a, b, out0, out1)) == -Shortfall(a, b, out0, out1)
  {
    ShortfallHasFee(ps, a.note.value + b.note.value, out0.value + out1.value);
  }

  /** The missing comparison: one note named as both inputs of a transfer without fee counts twice. */
  lemma NoteNamedTwiceIsAccepted(
    ps: Params, d: Deployment, max: Fr, w: World, env: Env, proof: Proof, roots: ComplianceRoots,
    a: Owned, out0: Note, out1: Note)
    requires Live(ps, d, max, w) && Compliant(w.state, roots) && HasRoom(ps, w, Main, 2)
    requires Untouched(ps, max, w, a) && a.note.assetId == out0.assetId == out1.assetId
    requires out0.value < NOTE_VALUE_BOUND && out1.value < NOTE_VALUE_BOUND
    requires out0.value + out1.value == 2 * a.note.value
    requires Balanced(ps, a.note.assetId, w)
    ensures MovesCover(ps, d, a.note.assetId, w, HonestStep(ps, max, w, env, proof, roots, a, a, out0, out1, 0),
                       0, a.note.value)
  {
    HonestStepMovesCover(ps, d, max, w, env, proof, roots, a, a, out0, out1, 0);
  }

  /** Distinct nullifiers are not necessary: two leaves of one owner with one rho share a nullifier, and a
      transfer of both without fee keeps the cover. */
  lemma SharedNullifierCanConserve(
    ps: Params, d: Deployment, max: Fr, w: World, env: Env, proof: Proof, roots: ComplianceRoots,
    a: Owned, b: Owned, out0: Note, out1: Note)
    requires Live(ps, d, max, w) && Compliant(w.state, roots) && HasRoom(ps, w, Main, 2)
    requires Untouched(ps, max, w, a) && Untouched(ps, max, w, b) && a.index != b.index
    requires a.note.rho == b.note.rho && TransferTerms(ps, a, b, out0, out1, 0)
    requires Balanced(ps, a.note.assetId, w)
    ensures var step := HonestStep(ps, max, w, env, proof, roots, a, b, out0, out1, 0);
            && step.call.transfer.nfIn0 == step.call.transfer.nfIn1
            && MovesCover(ps, d, a.note.assetId, w, step, 0, 0)
  {
    HonestStepMovesCover(ps, d, max, w, env, proof, roots, a, b, out0, out1, 0);
  }

  /** The raw comparison: leaves that were consumed before can be spent again under encodings of their
      nullifiers that are not stored, and the cover falls by what is counted again. */
  lemma SecondEncodingIsAccepted(
    ps: Params, d: Deployment, max: Fr, w: World, env: Env, proof: Proof, roots: ComplianceRoots,
    a: Owned, b: Owned, out0: Note, out1: Note, nf0: Fr, nf1: Fr)
    requires Live(ps, d, max, w) && Compliant(w.state, roots) && HasRoom(ps, w, Main, 2)
    requires Owns(ps, max, w, Main, a) && Owns(ps, max, w, Main, b) && TransferTerms(ps, a, b, out0, out1, 0)
    requires Names(ps, w, nf0, a) && Names(ps, w, nf1, b)
    requires Position(Main, a.index) in w.spent && Position(Main, b.index) in w.spent
    requires Balanced(ps, a.note.assetId, w)
    ensures var step := TransferStep(ps, max, w, env, proof, roots, a, b, out0, out1, 0, nf0, nf1);
            && MovesCover(ps, d, a.note.assetId, w, step, 0, a.note.value + b.note.value)
            && (d.verify(TransferStatement(step.call.transfer), proof) ==>
                  ConsumedBy(d, w, step) == {Position(Main, a.index), Position(Main, b.index)})
  {
    LiveTransferMovesCover(ps, d, max, w, env, proof, roots, a, b, out0, out1, 0, nf0, nf1);
    TransferConsumes(ps, d, max, w, env, proof, roots, a, b, out0, out1, 0, nf0, nf1);
  }

  // ----- a check that rules them out -----

  /** What can be checked on a call's public inputs alone: two-input calls name two nullifiers, and no fee
      is the field representative of a negative amount. Sufficient, not necessary. */
  ghost predicate Guarded(ps: Params, call: Call) {
    match call
    case DoTransfer(_, pi) => pi.nfIn0 != pi.nfIn1 && 2 * pi.fee < ps.modulus
    case DoSettleDvp(_, _, _, pi) => pi.nfLegX != pi.nfLegY && 2 * pi.feeX < ps.modulus && 2 * pi.feeY < ps.modulus
    case DoSettleIntent(_, _, pi) => pi.nfLegX != pi.nfLegY && 2 * pi.feeX < ps.modulus && 2 * pi.feeY < ps.modulus
    case DoUnshield(_, pi) => 2 * pi.fee < ps.modulus
    case DoEscrowDeposit(_, _, _, pi) => 2 * pi.fee < ps.modulus
    case DoEscrowRefund(_, _, _, pi) => 2 * pi.fee < ps.modulus
    case _ => true
  }

  lemma GuardedCall(ps: Params, call: Call, w: Witness, asset: Fr)
    requires MoveOf(call, w).Some? && Guarded(ps, call)
    ensures |MoveOf(call, w).value.nfs| == 2 ==> MoveOf(call, w).value.nfs[0] != MoveOf(call, w).value.nfs[1]
    ensures Fees(ps, call, w, asset) >= 0
  {
  }

  /** Distinct scalars name distinct positions as long as each nullifier is stored in one encoding. */
  lemma DistinctNotTwice(ps: Params, d: Deployment, asset: Fr, w: World, step: Step)
    requires Assumed(ps, d) && Consistent(ps, w) && FaithfulStep(ps, d, step)
    requires Accepted(d, w, step) && MoveOf(step.call, step.evidence).Some? && Guarded(ps, step.call)
    requires OneEncodingEach(ps, Advance(ps, d, asset, w, step).state.nullifiers)
    ensures NamedTwice(asset, MoveOf(step.call, step.evidence).value) == 0
  {
    var m := MoveOf(step.call, step.evidence).value;
    GuardedCall(ps, step.call, step.evidence, asset);
    StepRepeatsExactly(ps, d, asset, w, step);
    if NamedTwice(asset, m) > 0 {
      assert m.nfs[0] in m.nfs && m.nfs[1] in m.nfs;
      NamedIsStored(ps, d, asset, w, step, m.nfs[0]);
      NamedIsStored(ps, d, asset, w, step, m.nfs[1]);
    }
  }

  lemma GuardedStep(ps: Params, d: Deployment, asset: Fr, w: World, step: Step)
    requires Assumed(ps, d) && Consistent(ps, w) && FaithfulStep(ps, d, step)
    requires Accepted(d, w, step) ==> Guarded(ps, step.call)
    requires OneEncodingEach(ps, Advance(ps, d, asset, w, step).state.nullifiers)
    ensures Advance(ps, d, asset, w, step).books.repeats == w.books.repeats
    ensures Advance(ps, d, asset, w, step).books.fees >= w.books.fees
  {
    if Accepted(d, w, step) && MoveOf(step.call, step.evidence).Some? {
      var s' := Exec(d, w.state, step.env, step.call).value;
      AdvanceBooks(ps, d, asset, w, step, s');
      GuardedCall(ps, step.call, step.evidence, asset);
      DistinctNotTwice(ps, d, asset, w, step);
      StepRepeatsExactly(ps, d, asset, w, step);
    }
  }

  /** Every accepted call of the run is guarded. */
  ghost predicate GuardedRun(ps: Params, d: Deployment, asset: Fr, w: World, steps: seq<Step>) {
    forall i :: 0 <= i < |steps| && Accepted(d, Run(ps, d, asset, w, steps[..i]), steps[i]) ==>
                  Guarded(ps, steps[i].call)
  }

  lemma GuardedPrefix(ps: Params, d: Deployment, asset: Fr, w: World, steps: seq<Step>, n: nat)
    requires GuardedRun(ps, d, asset, w, steps) && n <= |steps|
    ensures GuardedRun(ps, d, asset, w, steps[..n])
  {
    forall i | 0 <= i < n && Accepted(d, Run(ps, d, asset, w, steps[..n][..i]), steps[..n][i])
      ensures Guarded(ps, steps[..n][i].call)
    {
      assert steps[..n][..i] == steps[..i];
    }
  }

  lemma {:induction false} GuardedRunBooks(ps: Params, d: Deployment, asset: Fr, w: World, steps: seq<Step>)
    requires Assumed(ps, d) && Consistent(ps, w) && Faithful(ps, d, steps) && GuardedRun(ps, d, asset, w, steps)
    requires OneEncodingEach(ps, Run(ps, d, asset, w, steps).state.nullifiers)
    ensures Run(ps, d, asset, w, steps).books.repeats == w.books.repeats
    ensures Run(ps, d, asset, w, steps).books.fees >= w.books.fees
    decreases |steps|
  {
    if |steps| > 0 {
      var n := |steps| - 1;
      var before := Run(ps, d, asset, w, steps[..n]);
      GuardedPrefix(ps, d, asset, w, steps, n);
      SpentOnlyGrows(ps, d, asset, w, steps, n);
      GuardedRunBooks(ps, d, asset, w, steps[..n]);
      RunRefinesTrees(ps, d, asset, w, steps[..n]);
      GuardedStep(ps, d, asset, before, steps[n]);
      assert Run(ps, d, asset, w, steps) == Advance(ps, d, asset, before, steps[n]);
    }
  }

  /** A run whose accepted calls are guarded, and that stores each nullifier in one encoding, creates no value:
      it keeps repeats and fees where they are or better, so it stays covered. */
  lemma GuardedRunIsCovered(ps: Params, d: Deployment, asset: Fr, w: World, steps: seq<Step>)
    requires Assumed(ps, d) && Consistent(ps, w) && Faithful(ps, d, steps) && GuardedRun(ps, d, asset, w, steps)
    requires Balanced(ps, asset, w) && Covered(ps, asset, w)
    requires OneEncodingEach(ps, Run(ps, d, asset, w, steps).state.nullifiers)
    ensures var w' := Run(ps, d, asset, w, steps);
            && w'.books.repeats == w.books.repeats && w'.books.fees >= w.books.fees
            && Covered(ps, asset, w')
  {
    GuardedRunBooks(ps, d, asset, w, steps);
    RunCoveredExactly(ps, d, asset, w, steps);
  }
}
