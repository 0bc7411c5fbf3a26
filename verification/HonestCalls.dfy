/** Liveness of the ledger: what an honest owner builds from the live state satisfies the relation and
    passes every gate of the contract, through each entrypoint that spends or mints. */
module HonestCalls {
  import opened Wrappers
  import opened Hashing
  import opened MerkleTree
  import opened Notes
  import opened RootWindows
  import opened ContractTypes
  import opened Circuits
  import opened ContractSpec
  import opened Moves
  import opened Ledger
  import opened EventLog
  import opened FrozenRuns
  import opened Wallet

  // ----- the live state -----

  /** What every reachable state of an honest deployment satisfies. */
  ghost predicate Live(ps: Params, d: Deployment, max: Fr, w: World) {
    Assumed(ps, d) && Consistent(ps, w) && FrozenOk(ps, max, w.state)
  }

  /** Every compliance root is one the contract currently accepts. */
  ghost predicate Compliant(s: State, roots: ComplianceRoots) {
    && roots.kyc in s.config.kyc.window && roots.sanction in s.config.sanction.window
    && roots.assets in s.config.assets.window
    && roots.auditorPk == s.config.auditorPk && roots.frozen == s.config.frozenRoot
  }

  /** The caller's note is a leaf of the tree and not frozen. */
  ghost predicate Owns(ps: Params, max: Fr, w: World, t: Tree, o: Owned) {
    Spendable(ps, max, w.GroveOf(t).leaves, FreezeLog(w.state.events), o)
  }

  /** And its nullifier, which is its own encoding, is not stored. */
  ghost predicate Ready(ps: Params, max: Fr, w: World, t: Tree, o: Owned) {
    && Owns(ps, max, w, t, o)
    && ps.decode(NullifierOf(ps.hash, o)) == NullifierOf(ps.hash, o)
    && NullifierOf(ps.hash, o) !in w.state.nullifiers
  }

  ghost predicate HasRoom(ps: Params, w: World, t: Tree, inserts: nat) {
    |w.GroveOf(t).leaves| + inserts <= Pow2(ps.depth)
  }

  function LiveSpend(ps: Params, max: Fr, w: World, t: Tree, o: Owned): Spend {
    BuildSpend(ps, max, w.GroveOf(t).leaves, FreezeLog(w.state.events), o)
  }

  lemma LastIsInLastN(s: seq<Fr>, n: nat)
    requires |s| > 0 && n > 0
    ensures s[|s| - 1] in LastN(s, n)
  {
    assert LastN(s, n)[|LastN(s, n)| - 1] == s[|s| - 1];
  }

  lemma RefinedTree(ps: Params, t: TreeStore, g: Grove)
    requires TreeRefines(ps, t, g)
    ensures PerfectRoot(ps.hash, ps.depth, g.leaves) == t.root && t.root in t.recentRoots
    ensures |t.frontier| == ps.depth && t.leafCount == |g.leaves|
  {
    LastIsInLastN(g.roots, RECENT_ROOTS_CAPACITY);
  }

  lemma LiveTree(ps: Params, d: Deployment, max: Fr, w: World, t: Tree)
    requires Live(ps, d, max, w)
    ensures PerfectRoot(ps.hash, ps.depth, w.GroveOf(t).leaves) == w.state.TreeOf(t).root
    ensures w.state.TreeOf(t).root in w.state.TreeOf(t).recentRoots
    ensures |w.state.TreeOf(t).frontier| == ps.depth == d.depth && w.state.TreeOf(t).leafCount == |w.GroveOf(t).leaves|
  {
    RefinedTree(ps, w.state.TreeOf(t), w.GroveOf(t));
  }

  lemma LiveSpendHolds(ps: Params, d: Deployment, max: Fr, w: World, t: Tree, o: Owned)
    requires Live(ps, d, max, w) && Owns(ps, max, w, t, o)
    ensures SpendHolds(ps, w.state.TreeOf(t).root, w.state.config.frozenRoot, NullifierOf(ps.hash, o),
                       LiveSpend(ps, max, w, t, o))
  {
    LiveTree(ps, d, max, w, t);
    BuiltSpendHolds(ps, max, w.GroveOf(t).leaves, FreezeLog(w.state.events), o);
  }

  /** The path of a live spend addresses the owner's leaf. */
  lemma LiveSpendIsAt(ps: Params, max: Fr, w: World, t: Tree, o: Owned)
    requires Owns(ps, max, w, t, o)
    ensures PositionOf(t, LiveSpend(ps, max, w, t, o)) == Position(t, o.index)
  {
    ShiftZeroIsCapacity(o.index, ps.depth);
    BitsAddress(o.index, BitsOf(ps.depth, o.index));
  }

  /** The evidence satisfies the relation, and a verifying proof of it is accepted. */
  ghost predicate AcceptedIfProved(ps: Params, d: Deployment, s: State, env: Env, call: Call, evidence: Witness) {
    && StatementOf(call).Some?
    && Holds(ps, StatementOf(call).value, evidence)
    && (d.verify(StatementOf(call).value, call.proof) ==> Exec(d, s, env, call).Success?)
  }

  // ----- the gates let it pass -----

  ghost predicate FitsTree(d: Deployment, t: TreeStore, io: TreeIo) {
    |io.oldFrontier| == |io.newFrontier| == d.depth && io.oldFrontier == t.frontier && io.nextIndex == t.leafCount
  }

  lemma MintGatesPass(
    ps: Params, d: Deployment, s: State, env: Env, call: Call,
    pi: ShieldInputs, evidence: Witness)
    requires s.config.initialized && FitsTree(d, s.main, pi.tree)
    requires pi.kycRoot in s.config.kyc.window && pi.assetsRoot in s.config.assets.window
    requires pi.auditorPk == s.config.auditorPk && pi.amount < AMOUNT_BOUND
    requires (call.DoShield? && call.shield == pi) || (call.DoMintRecovery? && call.recovery == pi)
    requires call.DoShield? ==> call.depositor in env.auth && pi.assetId in s.registry.sacs && env.tokenOk
    requires call.DoMintRecovery? ==> s.config.issuer in env.auth
    requires Holds(ps, ShieldStatement(pi), evidence)
    ensures AcceptedIfProved(ps, d, s, env, call, evidence)
  {
  }

  lemma TransferGatesPass(
    ps: Params, d: Deployment, s: State, env: Env, proof: Proof,
    pi: TransferInputs, evidence: Witness)
    requires s.config.initialized && Compliant(s, pi.roots) && pi.anchorRoot in s.main.recentRoots
    requires pi.nfIn0 !in s.nullifiers && pi.nfIn1 !in s.nullifiers && FitsTree(d, s.main, pi.tree)
    requires Holds(ps, TransferStatement(pi), evidence)
    ensures AcceptedIfProved(ps, d, s, env, DoTransfer(proof, pi), evidence)
  {
  }

  lemma UnshieldGatesPass(
    ps: Params, d: Deployment, s: State, env: Env, proof: Proof,
    pi: UnshieldInputs, evidence: Witness)
    requires s.config.initialized && Compliant(s, pi.roots) && pi.anchorRoot in s.main.recentRoots
    requires pi.nfIn !in s.nullifiers && pi.amount < AMOUNT_BOUND && FitsTree(d, s.main, pi.tree)
    requires pi.recipient in s.registry.recipients && pi.assetId in s.registry.sacs && env.tokenOk
    requires Holds(ps, UnshieldStatement(pi), evidence)
    ensures AcceptedIfProved(ps, d, s, env, DoUnshield(proof, pi), evidence)
  {
  }

  lemma DvpGatesPass(
    ps: Params, d: Deployment, s: State, env: Env, a: Address, b: Address, proof: Proof,
    pi: DvpInputs, evidence: Witness)
    requires s.config.initialized && Compliant(s, pi.roots) && pi.anchorRoot in s.main.recentRoots
    requires a in env.auth && b in env.auth
    requires pi.nfLegX !in s.nullifiers && pi.nfLegY !in s.nullifiers && FitsTree(d, s.main, pi.tree)
    requires Holds(ps, DvpStatement(pi), evidence)
    ensures AcceptedIfProved(ps, d, s, env, DoSettleDvp(a, b, proof, pi), evidence)
  {
  }

  /** Fully deposited, unsettled, before the deadline. */
  predicate Open(r: IntentRecord, now: nat) {
    !r.settled && r.depositedA && r.depositedB && now < r.deadline
  }

  /** The commitment of an undeposited leg. */
  predicate Depositable(r: IntentRecord, cm: Fr) {
    !r.settled && ((cm == r.escrowACm && !r.depositedA) || (cm == r.escrowBCm && !r.depositedB))
  }

  /** The refund commitment of a deposited, unrefunded leg, past the deadline. */
  predicate Refundable(r: IntentRecord, now: nat, cm: Fr) {
    && !r.settled && now >= r.deadline
    && ((cm == r.refundACm && r.depositedA && !r.refundedA) || (cm == r.refundBCm && r.depositedB && !r.refundedB))
  }

  /** A deposit answers to the frozen root, the asset registry and the auditor key only. */
  ghost predicate DepositCompliant(s: State, roots: ComplianceRoots) {
    && roots.assets in s.config.assets.window
    && roots.auditorPk == s.config.auditorPk && roots.frozen == s.config.frozenRoot
  }

  lemma DepositGatesPass(
    ps: Params, d: Deployment, s: State, env: Env, who: Address, id: IntentId, proof: Proof,
    pi: EscrowLegInputs, evidence: Witness)
    requires s.config.initialized && DepositCompliant(s, pi.roots) && pi.anchorRoot in s.main.recentRoots
    requires who in env.auth && id in s.intents && Depositable(s.intents[id], pi.cmOut)
    requires pi.nfIn !in s.nullifiers && FitsTree(d, s.escrow, pi.tree)
    requires Holds(ps, EscrowDepositStatement(pi), evidence)
    ensures AcceptedIfProved(ps, d, s, env, DoEscrowDeposit(who, id, proof, pi), evidence)
  {
  }

  lemma SettleGatesPass(
    ps: Params, d: Deployment, s: State, env: Env, id: IntentId, proof: Proof,
    pi: DvpInputs, evidence: Witness)
    requires s.config.initialized && Compliant(s, pi.roots) && pi.anchorRoot in s.escrow.recentRoots
    requires id in s.intents && Open(s.intents[id], env.now)
    requires pi.cmOutX == s.intents[id].outBCm && pi.cmOutY == s.intents[id].outACm
    requires pi.nfLegX !in s.nullifiers && pi.nfLegY !in s.nullifiers && FitsTree(d, s.main, pi.tree)
    requires Holds(ps, DvpStatement(pi), evidence)
    ensures AcceptedIfProved(ps, d, s, env, DoSettleIntent(id, proof, pi), evidence)
  {
  }

  lemma RefundGatesPass(
    ps: Params, d: Deployment, s: State, env: Env, who: Address, id: IntentId, proof: Proof,
    pi: EscrowLegInputs, evidence: Witness)
    requires s.config.initialized && Compliant(s, pi.roots) && pi.anchorRoot in s.escrow.recentRoots
    requires who in env.auth && id in s.intents && Refundable(s.intents[id], env.now, pi.cmOut)
    requires pi.nfIn !in s.nullifiers && FitsTree(d, s.main, pi.tree)
    requires Holds(ps, EscrowRefundStatement(pi), evidence)
    ensures AcceptedIfProved(ps, d, s, env, DoEscrowRefund(who, id, proof, pi), evidence)
  {
  }

  // ----- what is built from the live state is accepted -----

  function LiveMint(
    ps: Params, w: World, kycRoot: Fr, assetsRoot: Fr, out: Note, fee: Fr): (ShieldInputs, Witness)
  {
    BuildShield(ps, kycRoot, assetsRoot, w.state.config.auditorPk, out, fee,
                w.state.main.frontier, w.state.main.leafCount)
  }

  /** A deposit of a registered asset by a signing depositor, and a recovery mint by the issuer. */
  lemma HonestMintIsAccepted(
    ps: Params, d: Deployment, max: Fr, w: World, env: Env, who: Address, proof: Proof, kycRoot: Fr, assetsRoot: Fr,
    out: Note, fee: Fr)
    requires Live(ps, d, max, w) && HasRoom(ps, w, Main, 1) && out.value < 0x1_0000_0000_0000_0000
    requires kycRoot in w.state.config.kyc.window && assetsRoot in w.state.config.assets.window
    ensures var (pi, evidence) := LiveMint(ps, w, kycRoot, assetsRoot, out, fee);
            && (who in env.auth && out.assetId in w.state.registry.sacs && env.tokenOk ==>
                  AcceptedIfProved(ps, d, w.state, env, DoShield(who, proof, pi), evidence))
            && (w.state.config.issuer in env.auth ==>
                  AcceptedIfProved(ps, d, w.state, env, DoMintRecovery(proof, pi), evidence))
  {
    var (pi, evidence) := LiveMint(ps, w, kycRoot, assetsRoot, out, fee);
    LiveTree(ps, d, max, w, Main);
    BuiltShieldHolds(ps, kycRoot, assetsRoot, w.state.config.auditorPk, out, fee,
                     w.state.main.frontier, w.state.main.leafCount);
    if who in env.auth && out.assetId in w.state.registry.sacs && env.tokenOk {
      MintGatesPass(ps, d, w.state, env, DoShield(who, proof, pi), pi, evidence);
    }
    if w.state.config.issuer in env.auth {
      MintGatesPass(ps, d, w.state, env, DoMintRecovery(proof, pi), pi, evidence);
    }
  }

  function LiveTransfer(
    ps: Params, max: Fr, w: World, roots: ComplianceRoots, a: Owned, b: Owned, out0: Note, out1: Note, fee: Fr)
    : (TransferInputs, Witness)
  {
    BuildTransfer(ps, w.state.main.root, roots, LiveSpend(ps, max, w, Main, a), LiveSpend(ps, max, w, Main, b),
                  out0, out1, fee, w.state.main.frontier, w.state.main.leafCount)
  }

  ghost predicate TransferTerms(ps: Params, a: Owned, b: Owned, out0: Note, out1: Note, fee: Fr) {
    && a.ownerSk == b.ownerSk && a.note.assetId == b.note.assetId == out0.assetId == out1.assetId
    && out0.value < NOTE_VALUE_BOUND && out1.value < NOTE_VALUE_BOUND && fee < ps.modulus
    && SameInField(ps, a.note.value + b.note.value, out0.value + out1.value + fee)
  }

  lemma LiveSpendTerms(ps: Params, max: Fr, w: World, a: Owned, b: Owned, out0: Note, out1: Note, fee: Fr)
    requires TransferTerms(ps, a, b, out0, out1, fee)
    ensures SpendTerms(ps, LiveSpend(ps, max, w, Main, a), LiveSpend(ps, max, w, Main, b), out0, out1, fee)
  {
  }

  /** The call an owner makes of the live state under any encodings of the two nullifiers. */
  function TransferUnder(
    ps: Params, max: Fr, w: World, proof: Proof, roots: ComplianceRoots, a: Owned, b: Owned, out0: Note, out1: Note,
    fee: Fr, nf0: Fr, nf1: Fr): (Call, Witness)
  {
    var (pi, evidence) := LiveTransfer(ps, max, w, roots, a, b, out0, out1, fee);
    (DoTransfer(proof, pi.(nfIn0 := nf0, nfIn1 := nf1)), evidence)
  }

  ghost predicate Encodes(ps: Params, nf: Fr, o: Owned) {
    ps.decode(nf) == NullifierOf(ps.hash, o)
  }

  lemma LiveTransferHolds(
    ps: Params, d: Deployment, max: Fr, w: World, roots: ComplianceRoots, a: Owned, b: Owned, out0: Note, out1: Note,
    fee: Fr, nf0: Fr, nf1: Fr)
    requires Live(ps, d, max, w) && Compliant(w.state, roots) && HasRoom(ps, w, Main, 2)
    requires Owns(ps, max, w, Main, a) && Owns(ps, max, w, Main, b) && TransferTerms(ps, a, b, out0, out1, fee)
    requires Encodes(ps, nf0, a) && Encodes(ps, nf1, b)
    ensures var (pi, evidence) := LiveTransfer(ps, max, w, roots, a, b, out0, out1, fee);
            && Holds(ps, TransferStatement(pi.(nfIn0 := nf0, nfIn1 := nf1)), evidence)
            && pi.roots == roots && w.state.config.initialized
            && FitsTree(d, w.state.main, pi.tree) && pi.anchorRoot in w.state.main.recentRoots
  {
    var sa, sb := LiveSpend(ps, max, w, Main, a), LiveSpend(ps, max, w, Main, b);
    LiveTree(ps, d, max, w, Main);
    LiveSpendHolds(ps, d, max, w, Main, a);
    LiveSpendHolds(ps, d, max, w, Main, b);
    LiveSpendTerms(ps, max, w, a, b, out0, out1, fee);
    BuiltTransferHolds(ps, w.state.main.root, roots, sa, sb, out0, out1, fee,
                       w.state.main.frontier, w.state.main.leafCount, nf0, nf1);
  }

  /** The scalar is an encoding of the note's nullifier that is not stored. */
  ghost predicate Names(ps: Params, w: World, nf: Fr, o: Owned) {
    Encodes(ps, nf, o) && nf !in w.state.nullifiers
  }

  ghost predicate HeldAndAccepted(ps: Params, d: Deployment, s: State, env: Env, call: Call, evidence: Witness)
    requires call.DoTransfer?
  {
    Holds(ps, TransferStatement(call.transfer), evidence) && Exec(d, s, env, call).Success?
  }

  lemma NamedPasses(
    ps: Params, d: Deployment, max: Fr, w: World, env: Env, proof: Proof, roots: ComplianceRoots,
    a: Owned, b: Owned, out0: Note, out1: Note, fee: Fr, nf0: Fr, nf1: Fr)
    requires Live(ps, d, max, w) && Compliant(w.state, roots) && HasRoom(ps, w, Main, 2)
    requires Owns(ps, max, w, Main, a) && Owns(ps, max, w, Main, b) && TransferTerms(ps, a, b, out0, out1, fee)
    requires Names(ps, w, nf0, a) && Names(ps, w, nf1, b)
    requires var (call, _) := TransferUnder(ps, max, w, proof, roots, a, b, out0, out1, fee, nf0, nf1);
             d.verify(TransferStatement(call.transfer), proof)
    ensures var (call, evidence) := TransferUnder(ps, max, w, proof, roots, a, b, out0, out1, fee, nf0, nf1);
            HeldAndAccepted(ps, d, w.state, env, call, evidence)
  {
    var (call, evidence) := TransferUnder(ps, max, w, proof, roots, a, b, out0, out1, fee, nf0, nf1);
    LiveTransferHolds(ps, d, max, w, roots, a, b, out0, out1, fee, nf0, nf1);
    TransferGatesPass(ps, d, w.state, env, proof, call.transfer, evidence);
  }

  lemma PassingIsNamed(
    ps: Params, d: Deployment, max: Fr, w: World, env: Env, proof: Proof, roots: ComplianceRoots,
    a: Owned, b: Owned, out0: Note, out1: Note, fee: Fr, nf0: Fr, nf1: Fr)
    requires var (call, evidence) := TransferUnder(ps, max, w, proof, roots, a, b, out0, out1, fee, nf0, nf1);
             HeldAndAccepted(ps, d, w.state, env, call, evidence)
    ensures Names(ps, w, nf0, a) && Names(ps, w, nf1, b)
  {
    var (call, evidence) := TransferUnder(ps, max, w, proof, roots, a, b, out0, out1, fee, nf0, nf1);
    if nf0 in w.state.nullifiers || nf1 in w.state.nullifiers {
      StoredNullifierIsRefused(d, w.state, env, proof, call.transfer);
    }
    HeldNullifiersEncode(ps, call.transfer, evidence, a, b);
  }

  /** What passes, exactly: with a proof that verifies, a transfer of owned unfrozen leaves is attested and
      accepted exactly under encodings of the two nullifiers that are not stored. Whether the leaves were
      consumed before, under other encodings, plays no part. */
  lemma SpentOncePerEncoding(
    ps: Params, d: Deployment, max: Fr, w: World, env: Env, proof: Proof, roots: ComplianceRoots,
    a: Owned, b: Owned, out0: Note, out1: Note, fee: Fr, nf0: Fr, nf1: Fr)
    requires Live(ps, d, max, w) && Compliant(w.state, roots) && HasRoom(ps, w, Main, 2)
    requires Owns(ps, max, w, Main, a) && Owns(ps, max, w, Main, b) && TransferTerms(ps, a, b, out0, out1, fee)
    requires var (call, _) := TransferUnder(ps, max, w, proof, roots, a, b, out0, out1, fee, nf0, nf1);
             d.verify(TransferStatement(call.transfer), proof)
    ensures var (call, evidence) := TransferUnder(ps, max, w, proof, roots, a, b, out0, out1, fee, nf0, nf1);
            HeldAndAccepted(ps, d, w.state, env, call, evidence) <==> Names(ps, w, nf0, a) && Names(ps, w, nf1, b)
  {
    var (call, evidence) := TransferUnder(ps, max, w, proof, roots, a, b, out0, out1, fee, nf0, nf1);
    if Names(ps, w, nf0, a) && Names(ps, w, nf1, b) {
      NamedPasses(ps, d, max, w, env, proof, roots, a, b, out0, out1, fee, nf0, nf1);
    } else if HeldAndAccepted(ps, d, w.state, env, call, evidence) {
      PassingIsNamed(ps, d, max, w, env, proof, roots, a, b, out0, out1, fee, nf0, nf1);
    }
  }

  lemma HeldNullifiersEncode(ps: Params, pi: TransferInputs, evidence: Witness, a: Owned, b: Owned)
    requires Holds(ps, TransferStatement(pi), evidence)
    requires evidence.in0.note == a.note && evidence.in0.ownerSk == a.ownerSk
    requires evidence.in1.note == b.note && evidence.in1.ownerSk == b.ownerSk
    ensures Encodes(ps, pi.nfIn0, a) && Encodes(ps, pi.nfIn1, b)
  {
  }

  lemma StoredNullifierIsRefused(d: Deployment, s: State, env: Env, proof: Proof, pi: TransferInputs)
    requires pi.nfIn0 in s.nullifiers || pi.nfIn1 in s.nullifiers
    ensures Exec(d, s, env, DoTransfer(proof, pi)).Failure?
  {
    assert pi.nfIn0 in {pi.nfIn0, pi.nfIn1} && pi.nfIn1 in {pi.nfIn0, pi.nfIn1};
  }

  /** An owner of unfrozen Main leaves with unpublished nullifiers can always transfer them. */
  lemma HonestTransferIsAccepted(
    ps: Params, d: Deployment, max: Fr, w: World, env: Env, proof: Proof, roots: ComplianceRoots,
    a: Owned, b: Owned, out0: Note, out1: Note, fee: Fr)
    requires Live(ps, d, max, w) && Compliant(w.state, roots) && HasRoom(ps, w, Main, 2)
    requires Ready(ps, max, w, Main, a) && Ready(ps, max, w, Main, b) && TransferTerms(ps, a, b, out0, out1, fee)
    ensures var (pi, evidence) := LiveTransfer(ps, max, w, roots, a, b, out0, out1, fee);
            AcceptedIfProved(ps, d, w.state, env, DoTransfer(proof, pi), evidence)
  {
    var (pi, evidence) := LiveTransfer(ps, max, w, roots, a, b, out0, out1, fee);
    LiveTransferHolds(ps, d, max, w, roots, a, b, out0, out1, fee, NullifierOf(ps.hash, a), NullifierOf(ps.hash, b));
    assert pi.(nfIn0 := NullifierOf(ps.hash, a), nfIn1 := NullifierOf(ps.hash, b)) == pi;
    TransferGatesPass(ps, d, w.state, env, proof, pi, evidence);
  }

  function LiveUnshield(
    ps: Params, max: Fr, w: World, roots: ComplianceRoots, a: Owned, amount: nat, recipient: Fr, change: Option<Note>,
    fee: Fr): (UnshieldInputs, Witness)
  {
    BuildUnshield(ps, w.state.main.root, roots, LiveSpend(ps, max, w, Main, a), amount, recipient, change, fee,
                  w.state.main.frontier, w.state.main.leafCount)
  }

  /** And can always leave the pool with one, with or without change, once recipient and asset are
      registered and the token contract carries out the payment. */
  lemma HonestUnshieldIsAccepted(
    ps: Params, d: Deployment, max: Fr, w: World, env: Env, proof: Proof, roots: ComplianceRoots,
    a: Owned, amount: nat, recipient: Fr, change: Option<Note>, fee: Fr)
    requires Live(ps, d, max, w) && Compliant(w.state, roots) && HasRoom(ps, w, Main, 1)
    requires Ready(ps, max, w, Main, a)
    requires recipient in w.state.registry.recipients && a.note.assetId in w.state.registry.sacs && env.tokenOk
    requires change.Some? ==> change.value.assetId == a.note.assetId && change.value.value < NOTE_VALUE_BOUND
    requires fee < ps.modulus && amount < NOTE_VALUE_BOUND
    requires SameInField(ps, a.note.value, amount + (if change.Some? then change.value.value else 0) + fee)
    ensures var (pi, evidence) := LiveUnshield(ps, max, w, roots, a, amount, recipient, change, fee);
            AcceptedIfProved(ps, d, w.state, env, DoUnshield(proof, pi), evidence)
  {
    var (pi, evidence) := LiveUnshield(ps, max, w, roots, a, amount, recipient, change, fee);
    LiveTree(ps, d, max, w, Main);
    LiveSpendHolds(ps, d, max, w, Main, a);
    BuiltUnshieldHolds(ps, w.state.main.root, roots, LiveSpend(ps, max, w, Main, a), amount, recipient, change, fee,
                       w.state.main.frontier, w.state.main.leafCount);
    UnshieldGatesPass(ps, d, w.state, env, proof, pi, evidence);
  }

  /** Both legs of a swap, spent from one tree and minted into Main. */
  function LiveSwap(
    ps: Params, max: Fr, w: World, t: Tree, roots: ComplianceRoots, x: Owned, y: Owned, outX: Note, outY: Note,
    feeX: Fr, feeY: Fr): (DvpInputs, Witness)
  {
    BuildDvp(ps, w.state.TreeOf(t).root, roots, LiveSpend(ps, max, w, t, x), LiveSpend(ps, max, w, t, y),
             outX, outY, feeX, feeY, w.state.main.frontier, w.state.main.leafCount)
  }

  ghost predicate LegTerms(ps: Params, o: Owned, out: Note, fee: Fr) {
    out.value < NOTE_VALUE_BOUND && fee < ps.modulus && SameInField(ps, o.note.value, out.value + fee)
  }

  lemma LiveSwapHolds(
    ps: Params, d: Deployment, max: Fr, w: World, t: Tree, roots: ComplianceRoots, x: Owned, y: Owned,
    outX: Note, outY: Note, feeX: Fr, feeY: Fr)
    requires Live(ps, d, max, w) && Compliant(w.state, roots) && HasRoom(ps, w, Main, 2)
    requires Ready(ps, max, w, t, x) && Ready(ps, max, w, t, y)
    requires LegTerms(ps, x, outX, feeX) && LegTerms(ps, y, outY, feeY)
    ensures var (pi, evidence) := LiveSwap(ps, max, w, t, roots, x, y, outX, outY, feeX, feeY);
            && Holds(ps, DvpStatement(pi), evidence)
            && pi.cmOutX == Commitment(ps.hash, outX.(assetId := x.note.assetId))
            && pi.cmOutY == Commitment(ps.hash, outY.(assetId := y.note.assetId))
            && pi.roots == roots && w.state.config.initialized
            && FitsTree(d, w.state.main, pi.tree) && pi.anchorRoot in w.state.TreeOf(t).recentRoots
            && pi.nfLegX !in w.state.nullifiers && pi.nfLegY !in w.state.nullifiers
  {
    LiveTree(ps, d, max, w, Main);
    LiveTree(ps, d, max, w, t);
    LiveSpendHolds(ps, d, max, w, t, x);
    LiveSpendHolds(ps, d, max, w, t, y);
    BuiltDvpHolds(ps, w.state.TreeOf(t).root, roots, LiveSpend(ps, max, w, t, x), LiveSpend(ps, max, w, t, y),
                  outX, outY, feeX, feeY, w.state.main.frontier, w.state.main.leafCount);
  }

  /** Two signing parties can always swap unfrozen Main notes. */
  lemma HonestDvpIsAccepted(
    ps: Params, d: Deployment, max: Fr, w: World, env: Env, partyA: Address, partyB: Address, proof: Proof,
    roots: ComplianceRoots, x: Owned, y: Owned, outX: Note, outY: Note, feeX: Fr, feeY: Fr)
    requires Live(ps, d, max, w) && Compliant(w.state, roots) && HasRoom(ps, w, Main, 2)
    requires Ready(ps, max, w, Main, x) && Ready(ps, max, w, Main, y)
    requires LegTerms(ps, x, outX, feeX) && LegTerms(ps, y, outY, feeY)
    requires partyA in env.auth && partyB in env.auth
    ensures var (pi, evidence) := LiveSwap(ps, max, w, Main, roots, x, y, outX, outY, feeX, feeY);
            AcceptedIfProved(ps, d, w.state, env, DoSettleDvp(partyA, partyB, proof, pi), evidence)
  {
    var (pi, evidence) := LiveSwap(ps, max, w, Main, roots, x, y, outX, outY, feeX, feeY);
    LiveSwapHolds(ps, d, max, w, Main, roots, x, y, outX, outY, feeX, feeY);
    DvpGatesPass(ps, d, w.state, env, partyA, partyB, proof, pi, evidence);
  }

  /** Anyone holding the two escrow notes of a fully deposited intent can settle it before its deadline,
      into the outputs both parties consented to. */
  lemma HonestSettlementIsAccepted(
    ps: Params, d: Deployment, max: Fr, w: World, env: Env, id: IntentId, proof: Proof,
    roots: ComplianceRoots, x: Owned, y: Owned, outX: Note, outY: Note, feeX: Fr, feeY: Fr)
    requires Live(ps, d, max, w) && Compliant(w.state, roots) && HasRoom(ps, w, Main, 2)
    requires Ready(ps, max, w, Escrow, x) && Ready(ps, max, w, Escrow, y)
    requires LegTerms(ps, x, outX, feeX) && LegTerms(ps, y, outY, feeY)
    requires id in w.state.intents && !w.state.intents[id].settled && env.now < w.state.intents[id].deadline
    requires w.state.intents[id].depositedA && w.state.intents[id].depositedB
    requires Commitment(ps.hash, outX.(assetId := x.note.assetId)) == w.state.intents[id].outBCm
    requires Commitment(ps.hash, outY.(assetId := y.note.assetId)) == w.state.intents[id].outACm
    ensures var (pi, evidence) := LiveSwap(ps, max, w, Escrow, roots, x, y, outX, outY, feeX, feeY);
            AcceptedIfProved(ps, d, w.state, env, DoSettleIntent(id, proof, pi), evidence)
  {
    var (pi, evidence) := LiveSwap(ps, max, w, Escrow, roots, x, y, outX, outY, feeX, feeY);
    LiveSwapHolds(ps, d, max, w, Escrow, roots, x, y, outX, outY, feeX, feeY);
    SettleGatesPass(ps, d, w.state, env, id, proof, pi, evidence);
  }

  /** One note spent from one tree and minted into another. */
  function LiveLeg(
    ps: Params, max: Fr, w: World, from: Tree, into: Tree, roots: ComplianceRoots, a: Owned, out: Note, fee: Fr)
    : (EscrowLegInputs, Witness)
  {
    BuildEscrowLeg(ps, w.state.TreeOf(from).root, roots, LiveSpend(ps, max, w, from, a), out, fee,
                   w.state.TreeOf(into).frontier, w.state.TreeOf(into).leafCount)
  }

  lemma LiveLegHolds(
    ps: Params, d: Deployment, max: Fr, w: World, from: Tree, into: Tree, roots: ComplianceRoots, a: Owned, out: Note,
    fee: Fr)
    requires Live(ps, d, max, w) && roots.frozen == w.state.config.frozenRoot && HasRoom(ps, w, into, 1)
    requires Ready(ps, max, w, from, a) && LegTerms(ps, a, out, fee)
    ensures var (pi, evidence) := LiveLeg(ps, max, w, from, into, roots, a, out, fee);
            && Holds(ps, EscrowDepositStatement(pi), evidence) && Holds(ps, EscrowRefundStatement(pi), evidence)
            && pi.cmOut == Commitment(ps.hash, out.(assetId := a.note.assetId))
            && pi.roots == roots && w.state.config.initialized
            && FitsTree(d, w.state.TreeOf(into), pi.tree) && pi.anchorRoot in w.state.TreeOf(from).recentRoots
            && pi.nfIn !in w.state.nullifiers
  {
    LiveTree(ps, d, max, w, from);
    LiveTree(ps, d, max, w, into);
    LiveSpendHolds(ps, d, max, w, from, a);
    BuiltEscrowLegHolds(ps, w.state.TreeOf(from).root, roots, LiveSpend(ps, max, w, from, a), out, fee,
                        w.state.TreeOf(into).frontier, w.state.TreeOf(into).leafCount);
  }

  /** A party can always escrow an unfrozen Main note into an undeposited leg. */
  lemma HonestDepositIsAccepted(
    ps: Params, d: Deployment, max: Fr, w: World, env: Env, who: Address, id: IntentId, proof: Proof,
    roots: ComplianceRoots, a: Owned, out: Note, fee: Fr)
    requires Live(ps, d, max, w) && DepositCompliant(w.state, roots) && HasRoom(ps, w, Escrow, 1)
    requires Ready(ps, max, w, Main, a) && LegTerms(ps, a, out, fee) && who in env.auth && id in w.state.intents
    requires Depositable(w.state.intents[id], Commitment(ps.hash, out.(assetId := a.note.assetId)))
    ensures var (pi, evidence) := LiveLeg(ps, max, w, Main, Escrow, roots, a, out, fee);
            AcceptedIfProved(ps, d, w.state, env, DoEscrowDeposit(who, id, proof, pi), evidence)
  {
    var (pi, evidence) := LiveLeg(ps, max, w, Main, Escrow, roots, a, out, fee);
    LiveLegHolds(ps, d, max, w, Main, Escrow, roots, a, out, fee);
    DepositGatesPass(ps, d, w.state, env, who, id, proof, pi, evidence);
  }

  /** Nothing stays locked: past the deadline of an unsettled intent the holder of an unfrozen escrow note
      can always take a deposited leg back into its consented refund note. */
  lemma HonestRefundIsAccepted(
    ps: Params, d: Deployment, max: Fr, w: World, env: Env, who: Address, id: IntentId, proof: Proof,
    roots: ComplianceRoots, a: Owned, out: Note, fee: Fr)
    requires Live(ps, d, max, w) && Compliant(w.state, roots) && HasRoom(ps, w, Main, 1)
    requires Ready(ps, max, w, Escrow, a) && LegTerms(ps, a, out, fee) && who in env.auth && id in w.state.intents
    requires Refundable(w.state.intents[id], env.now, Commitment(ps.hash, out.(assetId := a.note.assetId)))
    ensures var (pi, evidence) := LiveLeg(ps, max, w, Escrow, Main, roots, a, out, fee);
            AcceptedIfProved(ps, d, w.state, env, DoEscrowRefund(who, id, proof, pi), evidence)
  {
    var (pi, evidence) := LiveLeg(ps, max, w, Escrow, Main, roots, a, out, fee);
    LiveLegHolds(ps, d, max, w, Escrow, Main, roots, a, out, fee);
    RefundGatesPass(ps, d, w.state, env, who, id, proof, pi, evidence);
  }
}
