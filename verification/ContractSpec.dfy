/** The contract's entrypoints as functions on its storage: which calls are accepted, with which error
    a call fails first, and the storage an accepted call leaves. A failing call changes nothing. */
module ContractSpec {
  import opened Wrappers
  import opened Hashing
  import opened RootWindows
  import opened ContractTypes

  datatype TreeStore = TreeStore(frontier: seq<Fr>, root: Fr, recentRoots: seq<Fr>, leafCount: nat)

  datatype WindowedRoot = WindowedRoot(current: Fr, window: seq<Fr>)

  /** A token movement the contract ordered, under the asset id it was ordered for. */
  datatype TokenMove =
    | PullDeposit(assetId: Fr, sac: Address, from: Address, amount: nat)
    | PayOut(assetId: Fr, sac: Address, to: Address, amount: nat)

  /** Instance storage. */
  datatype Config = Config(
    initialized: bool, admin: Address, issuer: Address, auditorPk: Fr,
    kyc: WindowedRoot, sanction: WindowedRoot, assets: WindowedRoot, frozenRoot: Fr)

  /** The admin-managed mirrors: asset id to token contract, recipient field to account. */
  datatype Registry = Registry(sacs: map<Fr, Address>, recipients: map<Fr, Address>)

  datatype State = State(
    config: Config, main: TreeStore, escrow: TreeStore, nullifiers: set<Fr>, frozen: set<Fr>,
    registry: Registry, intents: map<IntentId, IntentRecord>, moves: seq<TokenMove>, events: seq<Event>)
  {
    function TreeOf(t: Tree): TreeStore {
      if t == Main then main else escrow
    }

    function WithTree(t: Tree, store: TreeStore): State {
      if t == Main then this.(main := store) else this.(escrow := store)
    }

    function Emit(e: Event): State {
      this.(events := events + [e])
    }
  }

  /** Storage before init. */
  function Blank(): State {
    var unset := WindowedRoot(0, []);
    var noTree := TreeStore([], 0, [], 0);
    State(Config(false, 0, 0, 0, unset, unset, unset, 0), noTree, noTree, {}, {}, Registry(map[], map[]), map[], [], [])
  }

  /** What the host contributes to one call: the ledger sequence, the addresses that signed, and
      whether the token contract carries out the transfer. */
  datatype Env = Env(now: nat, auth: set<Address>, tokenOk: bool)


  // ----- gates -----

  function RequireIssuer(s: State, env: Env): Outcome<Error> {
    if !s.config.initialized then Fail(NotInitialized)
    else Need(s.config.issuer in env.auth, Unauthorized)
  }

  /** The gates shared by every spend: anchor ring, nullifiers, frozen root (strict). */
  function CheckSpend(s: State, from: Tree, anchorRoot: Fr, nullifiers: set<Fr>, frozenRoot: Fr): Outcome<Error> {
    if anchorRoot !in s.TreeOf(from).recentRoots then Fail(UnknownAnchorRoot)
    else if exists nf :: nf in nullifiers && nf in s.nullifiers then Fail(NullifierAlreadyUsed)
    else Need(frozenRoot == s.config.frozenRoot, StaleFrozenRoot)
  }

  function CheckKyc(s: State, root: Fr): Outcome<Error> {
    Need(root in s.config.kyc.window, StaleKycRoot)
  }

  function CheckSanction(s: State, root: Fr): Outcome<Error> {
    Need(root in s.config.sanction.window, StaleSanctionRoot)
  }

  function CheckAssets(s: State, root: Fr): Outcome<Error> {
    Need(root in s.config.assets.window, StaleAssetsRoot)
  }

  function CheckAuditor(s: State, pk: Fr): Outcome<Error> {
    Need(pk == s.config.auditorPk, AuditorPkMismatch)
  }

  function CheckCompliance(s: State, roots: ComplianceRoots): Outcome<Error> {
    Both(CheckKyc(s, roots.kyc),
         Both(CheckSanction(s, roots.sanction),
              Both(CheckAssets(s, roots.assets), CheckAuditor(s, roots.auditorPk))))
  }

  /** Every spend but an escrow deposit also answers to all compliance roots. */
  function CheckCompliantSpend(
    s: State, from: Tree, anchorRoot: Fr, nullifiers: set<Fr>, roots: ComplianceRoots): Outcome<Error>
  {
    Both(CheckSpend(s, from, anchorRoot, nullifiers, roots.frozen), CheckCompliance(s, roots))
  }

  /** old_frontier and next_index are pinned to the stored tree. */
  function CheckTree(depth: nat, t: TreeStore, io: TreeIo): Outcome<Error> {
    if |io.oldFrontier| != depth then Fail(MalformedPublicInputs)
    else if t.frontier != io.oldFrontier then Fail(UnknownAnchorRoot)
    else Need(io.nextIndex == t.leafCount, NextIndexMismatch)
  }

  /** A mint, by deposit or by recovery. */
  function CheckMint(depth: nat, s: State, pi: ShieldInputs): Outcome<Error> {
    Both(CheckKyc(s, pi.kycRoot),
         Both(CheckAssets(s, pi.assetsRoot),
              Both(CheckAuditor(s, pi.auditorPk), CheckTree(depth, s.main, pi.tree))))
  }

  const U64_MAX: nat := 0xFFFF_FFFF_FFFF_FFFF

  function SaturatingAdd(a: nat, b: nat): nat {
    if a + b <= U64_MAX then a + b else U64_MAX
  }

  function ApplyTransition(depth: nat, t: TreeStore, io: TreeIo, inserts: nat): Result<TreeStore, Error> {
    var wellFormed := |io.newFrontier| == depth;
    :- Need(wellFormed, MalformedPublicInputs);
    Success(TreeStore(io.newFrontier, io.newRoot, PushRecent(t.recentRoots, io.newRoot),
                      SaturatingAdd(t.leafCount, inserts)))
  }

  const AMOUNT_BOUND: nat := 0x1_0000_0000_0000_0000

  function Pull(s: State, env: Env, assetId: Fr, from: Address, amount: Fr): Result<State, Error> {
    var registered := assetId in s.registry.sacs;
    :- Need(registered, AssetNotRegistered);
    :- Need(amount < AMOUNT_BOUND, MalformedPublicInputs);
    :- Need(env.tokenOk, TokenTransferFailed);
    Success(s.(moves := s.moves + [PullDeposit(assetId, s.registry.sacs[assetId], from, amount)]))
  }

  function Pay(s: State, env: Env, assetId: Fr, to: Address, amount: Fr): Result<State, Error> {
    var registered := assetId in s.registry.sacs;
    :- Need(registered, AssetNotRegistered);
    :- Need(amount < AMOUNT_BOUND, MalformedPublicInputs);
    :- Need(env.tokenOk, TokenTransferFailed);
    Success(s.(moves := s.moves + [PayOut(assetId, s.registry.sacs[assetId], to, amount)]))
  }

  // ----- entrypoints -----

  function Push(w: WindowedRoot, root: Fr): WindowedRoot {
    WindowedRoot(root, PushCompliance(w.window, root))
  }

  function Init(d: Deployment, s: State, env: Env, cfg: InitConfig): Result<State, Error> {
    var initialized := s.config.initialized;
    :- Need(!initialized, AlreadyInitialized);
    :- Need(cfg.admin in env.auth, Unauthorized);
    :- Need(|cfg.initialFrontier| == d.depth, MalformedPublicInputs);
    var tree := TreeStore(cfg.initialFrontier, cfg.initialRoot, [cfg.initialRoot], 0);
    Success(s.(config := Config(true, cfg.admin, cfg.issuerAuthority, cfg.auditorPk, Push(s.config.kyc, cfg.kycRoot),
                                Push(s.config.sanction, cfg.sanctionRoot), Push(s.config.assets, cfg.assetsRoot),
                                cfg.frozenRoot),
               main := tree, escrow := tree))
  }

  function Shield(d: Deployment, s: State, env: Env, depositor: Address, proof: Proof, pi: ShieldInputs)
    : Result<State, Error>
  {
    var initialized := s.config.initialized;
    :- Need(initialized, NotInitialized);
    :- Need(depositor in env.auth, Unauthorized);
    :- CheckMint(d.depth, s, pi);
    :- Need(d.verify(ShieldStatement(pi), proof), InvalidProof);
    var pulled :- Pull(s, env, pi.assetId, depositor, pi.amount);
    var main :- ApplyTransition(d.depth, s.main, pi.tree, 1);
    Success(pulled.(main := main).Emit(ShieldEvent(pi.assetId, pi.amount, pi.cmOut, pi.tree.newRoot)))
  }

  function ConfidentialTransfer(d: Deployment, s: State, env: Env, proof: Proof, pi: TransferInputs)
    : Result<State, Error>
  {
    var initialized := s.config.initialized;
    :- Need(initialized, NotInitialized);
    :- CheckCompliantSpend(s, Main, pi.anchorRoot, {pi.nfIn0, pi.nfIn1}, pi.roots);
    :- CheckTree(d.depth, s.main, pi.tree);
    :- Need(d.verify(TransferStatement(pi), proof), InvalidProof);
    var main :- ApplyTransition(d.depth, s.main, pi.tree, 2);
    Success(s.(nullifiers := s.nullifiers + {pi.nfIn0, pi.nfIn1}, main := main)
            .Emit(TransferEvent(pi.nfIn0, pi.nfIn1, pi.cmOut0, pi.cmOut1, pi.tree.newRoot)))
  }

  function SettleDvp(
    d: Deployment, s: State, env: Env, partyA: Address, partyB: Address, proof: Proof, pi: DvpInputs)
    : Result<State, Error>
  {
    var initialized := s.config.initialized;
    :- Need(initialized, NotInitialized);
    :- Need(partyA in env.auth && partyB in env.auth, Unauthorized);
    :- CheckCompliantSpend(s, Main, pi.anchorRoot, {pi.nfLegX, pi.nfLegY}, pi.roots);
    :- CheckTree(d.depth, s.main, pi.tree);
    :- Need(d.verify(DvpStatement(pi), proof), InvalidProof);
    var main :- ApplyTransition(d.depth, s.main, pi.tree, 2);
    Success(s.(nullifiers := s.nullifiers + {pi.nfLegX, pi.nfLegY}, main := main)
            .Emit(DvpEvent(pi.nfLegX, pi.nfLegY, pi.cmOutX, pi.cmOutY, pi.tree.newRoot)))
  }

  function Unshield(d: Deployment, s: State, env: Env, proof: Proof, pi: UnshieldInputs): Result<State, Error> {
    var initialized := s.config.initialized;
    :- Need(initialized, NotInitialized);
    :- CheckCompliantSpend(s, Main, pi.anchorRoot, {pi.nfIn}, pi.roots);
    :- Need(pi.recipient in s.registry.recipients, RecipientNotAuthorised);
    :- CheckTree(d.depth, s.main, pi.tree);
    :- Need(d.verify(UnshieldStatement(pi), proof), InvalidProof);
    var main :- ApplyTransition(d.depth, s.main, pi.tree, if pi.cmChange == 0 then 0 else 1);
    var paid :- Pay(s, env, pi.assetId, s.registry.recipients[pi.recipient], pi.amount);
    Success(paid.(nullifiers := s.nullifiers + {pi.nfIn}, main := main)
            .Emit(UnshieldEvent(pi.nfIn, pi.assetId, pi.amount, pi.recipient, pi.cmChange, pi.tree.newRoot)))
  }

  function UpdateRoot(s: State, env: Env, kind: RootKind, root: Fr): Result<State, Error> {
    var gate := RequireIssuer(s, env);
    :- gate;
    var config := match kind
      case Kyc => s.config.(kyc := Push(s.config.kyc, root))
      case Sanction => s.config.(sanction := Push(s.config.sanction, root))
      case Assets => s.config.(assets := Push(s.config.assets, root));
    Success(s.(config := config).Emit(RootUpdatedEvent(kind, root)))
  }

  function RegisterAsset(s: State, env: Env, assetId: Fr, sac: Address): Result<State, Error> {
    var gate := RequireIssuer(s, env);
    :- gate;
    Success(s.(registry := s.registry.(sacs := s.registry.sacs[assetId := sac]))
            .Emit(AssetRegisteredEvent(assetId, sac)))
  }

  function RegisterTransparent(s: State, env: Env, recipient: Fr, addr: Address): Result<State, Error> {
    var gate := RequireIssuer(s, env);
    :- gate;
    Success(s.(registry := s.registry.(recipients := s.registry.recipients[recipient := addr]))
            .Emit(TransparentRegisteredEvent(recipient, addr)))
  }

  function Freeze(s: State, env: Env, cmTarget: Fr, newFrozenRoot: Fr): Result<State, Error> {
    var gate := RequireIssuer(s, env);
    :- gate;
    :- Need(cmTarget !in s.frozen, AlreadyFrozen);
    Success(s.(frozen := s.frozen + {cmTarget}, config := s.config.(frozenRoot := newFrozenRoot))
            .Emit(FreezeEvent(cmTarget, newFrozenRoot)))
  }

  function MintRecovery(d: Deployment, s: State, env: Env, proof: Proof, pi: ShieldInputs): Result<State, Error> {
    var gate := RequireIssuer(s, env);
    :- gate;
    :- CheckMint(d.depth, s, pi);
    :- Need(d.verify(ShieldStatement(pi), proof), InvalidProof);
    var main :- ApplyTransition(d.depth, s.main, pi.tree, 1);
    Success(s.(main := main).Emit(RecoveryEvent(pi.cmOut, pi.tree.newRoot)))
  }

  function CreateIntent(s: State, env: Env, partyA: Address, partyB: Address, id: IntentId, record: IntentRecord)
    : Result<State, Error>
  {
    var initialized := s.config.initialized;
    :- Need(initialized, NotInitialized);
    :- Need(partyA in env.auth && partyB in env.auth, Unauthorized);
    :- Need(id !in s.intents, IntentExists);
    :- Need(record.deadline > env.now, DeadlineInPast);
    var blank := record.(settled := false, depositedA := false, depositedB := false,
                          refundedA := false, refundedB := false);
    Success(s.(intents := s.intents[id := blank]).Emit(IntentCreatedEvent(id, record.deadline)))
  }

  /** The undeposited leg whose escrow commitment is cmOut: true for A. */
  function DepositLeg(s: State, id: IntentId, cmOut: Fr): (r: Result<bool, Error>)
    ensures r.Success? ==> id in s.intents
  {
    var known := id in s.intents;
    :- Need(known, IntentNotFound);
    var intent := s.intents[id];
    :- Need(!intent.settled, IntentSettled);
    if cmOut == intent.escrowACm && !intent.depositedA then Success(true)
    else if cmOut == intent.escrowBCm && !intent.depositedB then Success(false)
    else Failure(EscrowCmMismatch)
  }

  function MarkDeposited(intent: IntentRecord, isA: bool): IntentRecord {
    if isA then intent.(depositedA := true) else intent.(depositedB := true)
  }

  /** The deposited, not yet refunded leg whose refund commitment is cmOut, once the deadline passed. */
  function RefundLeg(s: State, env: Env, id: IntentId, cmOut: Fr): (r: Result<bool, Error>)
    ensures r.Success? ==> id in s.intents
  {
    var known := id in s.intents;
    :- Need(known, IntentNotFound);
    var intent := s.intents[id];
    :- Need(!intent.settled, IntentSettled);
    :- Need(env.now >= intent.deadline, DeadlineNotReached);
    if cmOut == intent.refundACm && intent.depositedA && !intent.refundedA then Success(true)
    else if cmOut == intent.refundBCm && intent.depositedB && !intent.refundedB then Success(false)
    else Failure(EscrowCmMismatch)
  }

  function MarkRefunded(intent: IntentRecord, isA: bool): IntentRecord {
    if isA then intent.(refundedA := true) else intent.(refundedB := true)
  }

  function Settleable(s: State, env: Env, id: IntentId): (r: Result<IntentRecord, Error>)
    ensures r.Success? ==> id in s.intents && r.value == s.intents[id]
  {
    var known := id in s.intents;
    :- Need(known, IntentNotFound);
    var intent := s.intents[id];
    :- Need(!intent.settled, IntentSettled);
    :- Need(intent.depositedA && intent.depositedB, NotFullyDeposited);
    :- Need(env.now < intent.deadline, DeadlinePassed);
    Success(intent)
  }

  function EscrowDeposit(
    d: Deployment, s: State, env: Env, depositor: Address, id: IntentId, proof: Proof, pi: EscrowLegInputs)
    : Result<State, Error>
  {
    var initialized := s.config.initialized;
    :- Need(initialized, NotInitialized);
    :- Need(depositor in env.auth, Unauthorized);
    var isA :- DepositLeg(s, id, pi.cmOut);
    :- CheckSpend(s, Main, pi.anchorRoot, {pi.nfIn}, pi.roots.frozen);
    :- CheckAssets(s, pi.roots.assets);
    :- CheckAuditor(s, pi.roots.auditorPk);
    :- CheckTree(d.depth, s.escrow, pi.tree);
    :- Need(d.verify(EscrowDepositStatement(pi), proof), InvalidProof);
    var escrow :- ApplyTransition(d.depth, s.escrow, pi.tree, 1);
    Success(s.(nullifiers := s.nullifiers + {pi.nfIn}, escrow := escrow,
               intents := s.intents[id := MarkDeposited(s.intents[id], isA)])
            .Emit(EscrowDepositedEvent(id, pi.nfIn, pi.cmOut, pi.tree.newRoot)))
  }

  function SettleIntent(d: Deployment, s: State, env: Env, id: IntentId, proof: Proof, pi: DvpInputs)
    : Result<State, Error>
  {
    var initialized := s.config.initialized;
    :- Need(initialized, NotInitialized);
    var intent :- Settleable(s, env, id);
    :- CheckCompliantSpend(s, Escrow, pi.anchorRoot, {pi.nfLegX, pi.nfLegY}, pi.roots);
    :- Need(pi.cmOutX == intent.outBCm && pi.cmOutY == intent.outACm, SwapOutputMismatch);
    :- CheckTree(d.depth, s.main, pi.tree);
    :- Need(d.verify(DvpStatement(pi), proof), InvalidProof);
    var main :- ApplyTransition(d.depth, s.main, pi.tree, 2);
    Success(s.(nullifiers := s.nullifiers + {pi.nfLegX, pi.nfLegY}, main := main,
               intents := s.intents[id := intent.(settled := true)])
            .Emit(IntentSettledEvent(id, pi.nfLegX, pi.nfLegY, pi.cmOutX, pi.cmOutY, pi.tree.newRoot)))
  }

  function EscrowRefund(
    d: Deployment, s: State, env: Env, refunder: Address, id: IntentId, proof: Proof, pi: EscrowLegInputs)
    : Result<State, Error>
  {
    var initialized := s.config.initialized;
    :- Need(initialized, NotInitialized);
    :- Need(refunder in env.auth, Unauthorized);
    var isA :- RefundLeg(s, env, id, pi.cmOut);
    :- CheckCompliantSpend(s, Escrow, pi.anchorRoot, {pi.nfIn}, pi.roots);
    :- CheckTree(d.depth, s.main, pi.tree);
    :- Need(d.verify(EscrowRefundStatement(pi), proof), InvalidProof);
    var main :- ApplyTransition(d.depth, s.main, pi.tree, 1);
    Success(s.(nullifiers := s.nullifiers + {pi.nfIn}, main := main,
               intents := s.intents[id := MarkRefunded(s.intents[id], isA)])
            .Emit(EscrowRefundedEvent(id, pi.nfIn, pi.cmOut, pi.tree.newRoot)))
  }

  // ----- one call -----

  datatype Call =
    | DoInit(config: InitConfig)
    | DoShield(depositor: Address, proof: Proof, shield: ShieldInputs)
    | DoTransfer(proof: Proof, transfer: TransferInputs)
    | DoSettleDvp(partyA: Address, partyB: Address, proof: Proof, dvp: DvpInputs)
    | DoUnshield(proof: Proof, unshield: UnshieldInputs)
    | DoUpdateRoot(kind: RootKind, root: Fr)
    | DoRegisterAsset(assetId: Fr, sac: Address)
    | DoRegisterTransparent(recipient: Fr, addr: Address)
    | DoFreeze(cmTarget: Fr, newFrozenRoot: Fr)
    | DoMintRecovery(proof: Proof, recovery: ShieldInputs)
    | DoCreateIntent(partyA: Address, partyB: Address, intentId: IntentId, record: IntentRecord)
    | DoEscrowDeposit(depositor: Address, intentId: IntentId, proof: Proof, deposit: EscrowLegInputs)
    | DoSettleIntent(intentId: IntentId, proof: Proof, settle: DvpInputs)
    | DoEscrowRefund(refunder: Address, intentId: IntentId, proof: Proof, refund: EscrowLegInputs)

  function Exec(d: Deployment, s: State, env: Env, call: Call): Result<State, Error> {
    match call
    case DoInit(config) => Init(d, s, env, config)
    case DoShield(depositor, proof, pi) => Shield(d, s, env, depositor, proof, pi)
    case DoTransfer(proof, pi) => ConfidentialTransfer(d, s, env, proof, pi)
    case DoSettleDvp(a, b, proof, pi) => SettleDvp(d, s, env, a, b, proof, pi)
    case DoUnshield(proof, pi) => Unshield(d, s, env, proof, pi)
    case DoUpdateRoot(kind, root) => UpdateRoot(s, env, kind, root)
    case DoRegisterAsset(assetId, sac) => RegisterAsset(s, env, assetId, sac)
    case DoRegisterTransparent(recipient, addr) => RegisterTransparent(s, env, recipient, addr)
    case DoFreeze(cm, root) => Freeze(s, env, cm, root)
    case DoMintRecovery(proof, pi) => MintRecovery(d, s, env, proof, pi)
    case DoCreateIntent(a, b, id, record) => CreateIntent(s, env, a, b, id, record)
    case DoEscrowDeposit(depositor, id, proof, pi) => EscrowDeposit(d, s, env, depositor, id, proof, pi)
    case DoSettleIntent(id, proof, pi) => SettleIntent(d, s, env, id, proof, pi)
    case DoEscrowRefund(refunder, id, proof, pi) => EscrowRefund(d, s, env, refunder, id, proof, pi)
  }
}
