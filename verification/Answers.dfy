/** What the contract answers, entrypoint by entrypoint and for every storage: a call is accepted exactly when
    all its gates hold, and otherwise fails with the error of the first that does not. The gates are conditions
    on the caller's inputs and on the stored fields, in the order of contracts/finnes/src/lib.rs. */
module Answers {
  import opened Wrappers
  import opened Hashing
  import opened RootWindows
  import opened ContractTypes
  import opened ContractSpec

  function Answer(d: Deployment, s: State, env: Env, call: Call): Outcome<Error> {
    match Exec(d, s, env, call)
    case Success(_) => Pass
    case Failure(e) => Fail(e)
  }

  // ----- setup and administration -----

  lemma InitAnswer(d: Deployment, s: State, env: Env, cfg: InitConfig)
    ensures Answer(d, s, env, DoInit(cfg)) ==
            Need(!s.config.initialized, AlreadyInitialized)
            .Then(Need(cfg.admin in env.auth, Unauthorized))
            .Then(Need(|cfg.initialFrontier| == d.depth, MalformedPublicInputs))
  {
  }

  lemma UpdateRootAnswer(d: Deployment, s: State, env: Env, kind: RootKind, root: Fr)
    ensures Answer(d, s, env, DoUpdateRoot(kind, root)) ==
            Need(s.config.initialized, NotInitialized).Then(Need(s.config.issuer in env.auth, Unauthorized))
  {
  }

  lemma RegisterAnswer(d: Deployment, s: State, env: Env, key: Fr, target: Address)
    ensures Answer(d, s, env, DoRegisterAsset(key, target)) == Answer(d, s, env, DoRegisterTransparent(key, target)) ==
            Need(s.config.initialized, NotInitialized).Then(Need(s.config.issuer in env.auth, Unauthorized))
  {
  }

  lemma FreezeAnswer(d: Deployment, s: State, env: Env, cm: Fr, root: Fr)
    ensures Answer(d, s, env, DoFreeze(cm, root)) ==
            Need(s.config.initialized, NotInitialized)
            .Then(Need(s.config.issuer in env.auth, Unauthorized))
            .Then(Need(cm !in s.frozen, AlreadyFrozen))
  {
  }

  // ----- calls with a proof -----

  lemma ShieldAnswer(d: Deployment, s: State, env: Env, who: Address, proof: Proof, pi: ShieldInputs)
    ensures Answer(d, s, env, DoShield(who, proof, pi)) ==
            Need(s.config.initialized, NotInitialized)
            .Then(Need(who in env.auth, Unauthorized))
            .Then(Need(pi.kycRoot in s.config.kyc.window, StaleKycRoot))
            .Then(Need(pi.assetsRoot in s.config.assets.window, StaleAssetsRoot))
            .Then(Need(pi.auditorPk == s.config.auditorPk, AuditorPkMismatch))
            .Then(Need(|pi.tree.oldFrontier| == d.depth, MalformedPublicInputs))
            .Then(Need(pi.tree.oldFrontier == s.main.frontier, UnknownAnchorRoot))
            .Then(Need(pi.tree.nextIndex == s.main.leafCount, NextIndexMismatch))
            .Then(Need(d.verify(ShieldStatement(pi), proof), InvalidProof))
            .Then(Need(pi.assetId in s.registry.sacs, AssetNotRegistered))
            .Then(Need(pi.amount < 0x1_0000_0000_0000_0000, MalformedPublicInputs))
            .Then(Need(env.tokenOk, TokenTransferFailed))
            .Then(Need(|pi.tree.newFrontier| == d.depth, MalformedPublicInputs))
  {
  }

  lemma MintRecoveryAnswer(d: Deployment, s: State, env: Env, proof: Proof, pi: ShieldInputs)
    ensures Answer(d, s, env, DoMintRecovery(proof, pi)) ==
            Need(s.config.initialized, NotInitialized)
            .Then(Need(s.config.issuer in env.auth, Unauthorized))
            .Then(Need(pi.kycRoot in s.config.kyc.window, StaleKycRoot))
            .Then(Need(pi.assetsRoot in s.config.assets.window, StaleAssetsRoot))
            .Then(Need(pi.auditorPk == s.config.auditorPk, AuditorPkMismatch))
            .Then(Need(|pi.tree.oldFrontier| == d.depth, MalformedPublicInputs))
            .Then(Need(pi.tree.oldFrontier == s.main.frontier, UnknownAnchorRoot))
            .Then(Need(pi.tree.nextIndex == s.main.leafCount, NextIndexMismatch))
            .Then(Need(d.verify(ShieldStatement(pi), proof), InvalidProof))
            .Then(Need(|pi.tree.newFrontier| == d.depth, MalformedPublicInputs))
  {
  }

  lemma TransferAnswer(d: Deployment, s: State, env: Env, proof: Proof, pi: TransferInputs)
    ensures Answer(d, s, env, DoTransfer(proof, pi)) ==
            Need(s.config.initialized, NotInitialized)
            .Then(Need(pi.anchorRoot in s.main.recentRoots, UnknownAnchorRoot))
            .Then(Need(pi.nfIn0 !in s.nullifiers && pi.nfIn1 !in s.nullifiers, NullifierAlreadyUsed))
            .Then(Need(pi.roots.frozen == s.config.frozenRoot, StaleFrozenRoot))
            .Then(Need(pi.roots.kyc in s.config.kyc.window, StaleKycRoot))
            .Then(Need(pi.roots.sanction in s.config.sanction.window, StaleSanctionRoot))
            .Then(Need(pi.roots.assets in s.config.assets.window, StaleAssetsRoot))
            .Then(Need(pi.roots.auditorPk == s.config.auditorPk, AuditorPkMismatch))
            .Then(Need(|pi.tree.oldFrontier| == d.depth, MalformedPublicInputs))
            .Then(Need(pi.tree.oldFrontier == s.main.frontier, UnknownAnchorRoot))
            .Then(Need(pi.tree.nextIndex == s.main.leafCount, NextIndexMismatch))
            .Then(Need(d.verify(TransferStatement(pi), proof), InvalidProof))
            .Then(Need(|pi.tree.newFrontier| == d.depth, MalformedPublicInputs))
  {
    OneOfTwo(pi.nfIn0, pi.nfIn1, s.nullifiers);
  }

  lemma SettleDvpAnswer(
    d: Deployment, s: State, env: Env, partyA: Address, partyB: Address, proof: Proof, pi: DvpInputs)
    ensures Answer(d, s, env, DoSettleDvp(partyA, partyB, proof, pi)) ==
            Need(s.config.initialized, NotInitialized)
            .Then(Need(partyA in env.auth && partyB in env.auth, Unauthorized))
            .Then(Need(pi.anchorRoot in s.main.recentRoots, UnknownAnchorRoot))
            .Then(Need(pi.nfLegX !in s.nullifiers && pi.nfLegY !in s.nullifiers, NullifierAlreadyUsed))
            .Then(Need(pi.roots.frozen == s.config.frozenRoot, StaleFrozenRoot))
            .Then(Need(pi.roots.kyc in s.config.kyc.window, StaleKycRoot))
            .Then(Need(pi.roots.sanction in s.config.sanction.window, StaleSanctionRoot))
            .Then(Need(pi.roots.assets in s.config.assets.window, StaleAssetsRoot))
            .Then(Need(pi.roots.auditorPk == s.config.auditorPk, AuditorPkMismatch))
            .Then(Need(|pi.tree.oldFrontier| == d.depth, MalformedPublicInputs))
            .Then(Need(pi.tree.oldFrontier == s.main.frontier, UnknownAnchorRoot))
            .Then(Need(pi.tree.nextIndex == s.main.leafCount, NextIndexMismatch))
            .Then(Need(d.verify(DvpStatement(pi), proof), InvalidProof))
            .Then(Need(|pi.tree.newFrontier| == d.depth, MalformedPublicInputs))
  {
    OneOfTwo(pi.nfLegX, pi.nfLegY, s.nullifiers);
  }

  lemma UnshieldAnswer(d: Deployment, s: State, env: Env, proof: Proof, pi: UnshieldInputs)
    ensures Answer(d, s, env, DoUnshield(proof, pi)) ==
            Need(s.config.initialized, NotInitialized)
            .Then(Need(pi.anchorRoot in s.main.recentRoots, UnknownAnchorRoot))
            .Then(Need(pi.nfIn !in s.nullifiers, NullifierAlreadyUsed))
            .Then(Need(pi.roots.frozen == s.config.frozenRoot, StaleFrozenRoot))
            .Then(Need(pi.roots.kyc in s.config.kyc.window, StaleKycRoot))
            .Then(Need(pi.roots.sanction in s.config.sanction.window, StaleSanctionRoot))
            .Then(Need(pi.roots.assets in s.config.assets.window, StaleAssetsRoot))
            .Then(Need(pi.roots.auditorPk == s.config.auditorPk, AuditorPkMismatch))
            .Then(Need(pi.recipient in s.registry.recipients, RecipientNotAuthorised))
            .Then(Need(|pi.tree.oldFrontier| == d.depth, MalformedPublicInputs))
            .Then(Need(pi.tree.oldFrontier == s.main.frontier, UnknownAnchorRoot))
            .Then(Need(pi.tree.nextIndex == s.main.leafCount, NextIndexMismatch))
            .Then(Need(d.verify(UnshieldStatement(pi), proof), InvalidProof))
            .Then(Need(|pi.tree.newFrontier| == d.depth, MalformedPublicInputs))
            .Then(Need(pi.assetId in s.registry.sacs, AssetNotRegistered))
            .Then(Need(pi.amount < 0x1_0000_0000_0000_0000, MalformedPublicInputs))
            .Then(Need(env.tokenOk, TokenTransferFailed))
  {
    OneOfTwo(pi.nfIn, pi.nfIn, s.nullifiers);
  }

  // ----- the escrow -----

  lemma CreateIntentAnswer(
    d: Deployment, s: State, env: Env, partyA: Address, partyB: Address, id: IntentId, record: IntentRecord)
    ensures Answer(d, s, env, DoCreateIntent(partyA, partyB, id, record)) ==
            Need(s.config.initialized, NotInitialized)
            .Then(Need(partyA in env.auth && partyB in env.auth, Unauthorized))
            .Then(Need(id !in s.intents, IntentExists))
            .Then(Need(env.now < record.deadline, DeadlineInPast))
  {
  }

  /** A deposit answers to no KYC and no sanctions root. */
  lemma EscrowDepositAnswer(
    d: Deployment, s: State, env: Env, who: Address, id: IntentId, proof: Proof, pi: EscrowLegInputs)
    ensures Answer(d, s, env, DoEscrowDeposit(who, id, proof, pi)) ==
            Need(s.config.initialized, NotInitialized)
            .Then(Need(who in env.auth, Unauthorized))
            .Then(Need(id in s.intents, IntentNotFound))
            .Then(Need(id in s.intents ==> !s.intents[id].settled, IntentSettled))
            .Then(Need(id in s.intents ==>
                         || (pi.cmOut == s.intents[id].escrowACm && !s.intents[id].depositedA)
                         || (pi.cmOut == s.intents[id].escrowBCm && !s.intents[id].depositedB), EscrowCmMismatch))
            .Then(Need(pi.anchorRoot in s.main.recentRoots, UnknownAnchorRoot))
            .Then(Need(pi.nfIn !in s.nullifiers, NullifierAlreadyUsed))
            .Then(Need(pi.roots.frozen == s.config.frozenRoot, StaleFrozenRoot))
            .Then(Need(pi.roots.assets in s.config.assets.window, StaleAssetsRoot))
            .Then(Need(pi.roots.auditorPk == s.config.auditorPk, AuditorPkMismatch))
            .Then(Need(|pi.tree.oldFrontier| == d.depth, MalformedPublicInputs))
            .Then(Need(pi.tree.oldFrontier == s.escrow.frontier, UnknownAnchorRoot))
            .Then(Need(pi.tree.nextIndex == s.escrow.leafCount, NextIndexMismatch))
            .Then(Need(d.verify(EscrowDepositStatement(pi), proof), InvalidProof))
            .Then(Need(|pi.tree.newFrontier| == d.depth, MalformedPublicInputs))
  {
    OneOfTwo(pi.nfIn, pi.nfIn, s.nullifiers);
  }

  lemma SettleIntentAnswer(d: Deployment, s: State, env: Env, id: IntentId, proof: Proof, pi: DvpInputs)
    ensures Answer(d, s, env, DoSettleIntent(id, proof, pi)) ==
            Need(s.config.initialized, NotInitialized)
            .Then(Need(id in s.intents, IntentNotFound))
            .Then(Need(id in s.intents ==> !s.intents[id].settled, IntentSettled))
            .Then(Need(id in s.intents ==> s.intents[id].depositedA && s.intents[id].depositedB, NotFullyDeposited))
            .Then(Need(id in s.intents ==> env.now < s.intents[id].deadline, DeadlinePassed))
            .Then(Need(pi.anchorRoot in s.escrow.recentRoots, UnknownAnchorRoot))
            .Then(Need(pi.nfLegX !in s.nullifiers && pi.nfLegY !in s.nullifiers, NullifierAlreadyUsed))
            .Then(Need(pi.roots.frozen == s.config.frozenRoot, StaleFrozenRoot))
            .Then(Need(pi.roots.kyc in s.config.kyc.window, StaleKycRoot))
            .Then(Need(pi.roots.sanction in s.config.sanction.window, StaleSanctionRoot))
            .Then(Need(pi.roots.assets in s.config.assets.window, StaleAssetsRoot))
            .Then(Need(pi.roots.auditorPk == s.config.auditorPk, AuditorPkMismatch))
            .Then(Need(id in s.intents ==>
                         pi.cmOutX == s.intents[id].outBCm && pi.cmOutY == s.intents[id].outACm, SwapOutputMismatch))
            .Then(Need(|pi.tree.oldFrontier| == d.depth, MalformedPublicInputs))
            .Then(Need(pi.tree.oldFrontier == s.main.frontier, UnknownAnchorRoot))
            .Then(Need(pi.tree.nextIndex == s.main.leafCount, NextIndexMismatch))
            .Then(Need(d.verify(DvpStatement(pi), proof), InvalidProof))
            .Then(Need(|pi.tree.newFrontier| == d.depth, MalformedPublicInputs))
  {
    OneOfTwo(pi.nfLegX, pi.nfLegY, s.nullifiers);
  }

  lemma EscrowRefundAnswer(
    d: Deployment, s: State, env: Env, who: Address, id: IntentId, proof: Proof, pi: EscrowLegInputs)
    ensures Answer(d, s, env, DoEscrowRefund(who, id, proof, pi)) ==
            Need(s.config.initialized, NotInitialized)
            .Then(Need(who in env.auth, Unauthorized))
            .Then(Need(id in s.intents, IntentNotFound))
            .Then(Need(id in s.intents ==> !s.intents[id].settled, IntentSettled))
            .Then(Need(id in s.intents ==> env.now >= s.intents[id].deadline, DeadlineNotReached))
            .Then(Need(id in s.intents ==>
                         || (pi.cmOut == s.intents[id].refundACm
                             && s.intents[id].depositedA && !s.intents[id].refundedA)
                         || (pi.cmOut == s.intents[id].refundBCm
                             && s.intents[id].depositedB && !s.intents[id].refundedB), EscrowCmMismatch))
            .Then(Need(pi.anchorRoot in s.escrow.recentRoots, UnknownAnchorRoot))
            .Then(Need(pi.nfIn !in s.nullifiers, NullifierAlreadyUsed))
            .Then(Need(pi.roots.frozen == s.config.frozenRoot, StaleFrozenRoot))
            .Then(Need(pi.roots.kyc in s.config.kyc.window, StaleKycRoot))
            .Then(Need(pi.roots.sanction in s.config.sanction.window, StaleSanctionRoot))
            .Then(Need(pi.roots.assets in s.config.assets.window, StaleAssetsRoot))
            .Then(Need(pi.roots.auditorPk == s.config.auditorPk, AuditorPkMismatch))
            .Then(Need(|pi.tree.oldFrontier| == d.depth, MalformedPublicInputs))
            .Then(Need(pi.tree.oldFrontier == s.main.frontier, UnknownAnchorRoot))
            .Then(Need(pi.tree.nextIndex == s.main.leafCount, NextIndexMismatch))
            .Then(Need(d.verify(EscrowRefundStatement(pi), proof), InvalidProof))
            .Then(Need(|pi.tree.newFrontier| == d.depth, MalformedPublicInputs))
  {
    OneOfTwo(pi.nfIn, pi.nfIn, s.nullifiers);
  }

  lemma OneOfTwo(a: Fr, b: Fr, stored: set<Fr>)
    ensures (exists nf :: nf in {a, b} && nf in stored) <==> a in stored || b in stored
    ensures (exists nf :: nf in {a} && nf in stored) <==> a in stored
  {
    assert a in {a, b} && b in {a, b} && a in {a};
  }

  // ----- what setup stores, and what is counted -----

  /** init seeds both trees alike, from whatever frontier and root it is given, keeps the two authorities apart,
      and publishes the first root of each kind. */
  lemma InitStores(d: Deployment, s: State, env: Env, cfg: InitConfig, s': State)
    requires Exec(d, s, env, DoInit(cfg)) == Success(s')
    ensures s'.main == s'.escrow == TreeStore(cfg.initialFrontier, cfg.initialRoot, [cfg.initialRoot], 0)
    ensures s'.config.initialized && s'.config.admin == cfg.admin && s'.config.issuer == cfg.issuerAuthority
    ensures s'.config.auditorPk == cfg.auditorPk && s'.config.frozenRoot == cfg.frozenRoot
    ensures s'.config.kyc.current == cfg.kycRoot
    ensures s'.config.kyc.window == PushCompliance(s.config.kyc.window, cfg.kycRoot)
    ensures s'.config.sanction.current == cfg.sanctionRoot
    ensures s'.config.sanction.window == PushCompliance(s.config.sanction.window, cfg.sanctionRoot)
    ensures s'.config.assets.current == cfg.assetsRoot
    ensures s'.config.assets.window == PushCompliance(s.config.assets.window, cfg.assetsRoot)
    ensures s'.nullifiers == s.nullifiers && s'.frozen == s.frozen && s'.registry == s.registry
    ensures s'.intents == s.intents && s'.moves == s.moves && s'.events == s.events
  {
  }

  /** Every accepted call advances the two leaf counts by what it appends, and neither ever wraps around. */
  lemma CountsSaturate(d: Deployment, s: State, env: Env, call: Call, s': State)
    requires Exec(d, s, env, call) == Success(s') && !call.DoInit?
    ensures var main := match call
                        case DoShield(_, _, _) => 1
                        case DoMintRecovery(_, _) => 1
                        case DoTransfer(_, _) => 2
                        case DoSettleDvp(_, _, _, _) => 2
                        case DoUnshield(_, pi) => if pi.cmChange == 0 then 0 else 1
                        case DoSettleIntent(_, _, _) => 2
                        case DoEscrowRefund(_, _, _, _) => 1
                        case _ => 0;
            var top := 0xFFFF_FFFF_FFFF_FFFF;
            && s'.main.leafCount == (if main == 0 && !call.DoUnshield? then s.main.leafCount
                                     else if s.main.leafCount + main <= top then s.main.leafCount + main else top)
            && s'.escrow.leafCount == (if !call.DoEscrowDeposit? then s.escrow.leafCount
                                       else if s.escrow.leafCount + 1 <= top then s.escrow.leafCount + 1 else top)
  {
  }
}
