/** The contract's wire types (contracts/finnes/src/types.rs), grouped where several circuits share
    fields. Ciphertexts are not carried. */
module ContractTypes {
  import opened Hashing

  type Address = nat
  type IntentId = nat

  datatype Proof = Proof(a: nat, b: nat, c: nat)

  datatype Tree = Main | Escrow

  /** The tree transition every circuit exposes. */
  datatype TreeIo = TreeIo(oldFrontier: seq<Fr>, newFrontier: seq<Fr>, newRoot: Fr, nextIndex: nat)

  datatype ComplianceRoots = ComplianceRoots(kyc: Fr, sanction: Fr, assets: Fr, frozen: Fr, auditorPk: Fr)

  datatype ShieldInputs = ShieldInputs(
    assetId: Fr, amount: Fr, kycRoot: Fr, assetsRoot: Fr, auditorPk: Fr, cmOut: Fr, fee: Fr, tree: TreeIo)

  datatype TransferInputs = TransferInputs(
    anchorRoot: Fr, roots: ComplianceRoots, nfIn0: Fr, nfIn1: Fr, cmOut0: Fr, cmOut1: Fr, fee: Fr, tree: TreeIo)

  datatype UnshieldInputs = UnshieldInputs(
    anchorRoot: Fr, roots: ComplianceRoots, nfIn: Fr, assetId: Fr, amount: Fr, recipient: Fr, cmChange: Fr,
    fee: Fr, tree: TreeIo)

  datatype DvpInputs = DvpInputs(
    anchorRoot: Fr, roots: ComplianceRoots, nfLegX: Fr, nfLegY: Fr, cmOutX: Fr, cmOutY: Fr, feeX: Fr, feeY: Fr,
    tree: TreeIo)

  datatype EscrowLegInputs = EscrowLegInputs(
    anchorRoot: Fr, roots: ComplianceRoots, nfIn: Fr, cmOut: Fr, fee: Fr, tree: TreeIo)

  /** What one Groth16 verification is about: a circuit together with its public inputs. */
  datatype Statement =
    | ShieldStatement(shield: ShieldInputs)
    | TransferStatement(transfer: TransferInputs)
    | UnshieldStatement(unshield: UnshieldInputs)
    | DvpStatement(dvp: DvpInputs)
    | EscrowDepositStatement(deposit: EscrowLegInputs)
    | EscrowRefundStatement(refund: EscrowLegInputs)

  /** The Groth16 check under the stored verifying keys. */
  type Verifier = (Statement, Proof) -> bool

  /** What is fixed at deployment: the tree depth (TREE_DEPTH, 20 in the source) and the verifier. */
  datatype Deployment = Deployment(depth: nat, verify: Verifier)

  datatype IntentRecord = IntentRecord(
    deadline: nat, settled: bool,
    escrowACm: Fr, escrowBCm: Fr, outACm: Fr, outBCm: Fr, refundACm: Fr, refundBCm: Fr,
    depositedA: bool, depositedB: bool, refundedA: bool, refundedB: bool)

  datatype InitConfig = InitConfig(
    admin: Address, issuerAuthority: Address, auditorPk: Fr, kycRoot: Fr, sanctionRoot: Fr, assetsRoot: Fr,
    frozenRoot: Fr, initialFrontier: seq<Fr>, initialRoot: Fr)

  datatype RootKind = Kyc | Sanction | Assets

  datatype Event =
    | ShieldEvent(assetId: Fr, amount: Fr, cmOut: Fr, newRoot: Fr)
    | TransferEvent(nfIn0: Fr, nfIn1: Fr, cmOut0: Fr, cmOut1: Fr, newRoot: Fr)
    | UnshieldEvent(nfIn: Fr, assetId: Fr, amount: Fr, recipient: Fr, cmChange: Fr, newRoot: Fr)
    | DvpEvent(nfLegX: Fr, nfLegY: Fr, cmOutX: Fr, cmOutY: Fr, newRoot: Fr)
    | FreezeEvent(cmTarget: Fr, newFrozenRoot: Fr)
    | RecoveryEvent(cmOut: Fr, newRoot: Fr)
    | RootUpdatedEvent(kind: RootKind, newRoot: Fr)
    | AssetRegisteredEvent(assetId: Fr, sac: Address)
    | TransparentRegisteredEvent(recipient: Fr, addr: Address)
    | IntentCreatedEvent(intentId: IntentId, deadline: nat)
    | EscrowDepositedEvent(intentId: IntentId, nfIn: Fr, cmOut: Fr, newRoot: Fr)
    | IntentSettledEvent(intentId: IntentId, nfLegX: Fr, nfLegY: Fr, cmOutX: Fr, cmOutY: Fr, newRoot: Fr)
    | EscrowRefundedEvent(intentId: IntentId, nfIn: Fr, cmOut: Fr, newRoot: Fr)

  datatype Error =
    | AlreadyInitialized | NotInitialized | Unauthorized
    | UnknownAnchorRoot | NullifierAlreadyUsed | StaleFrozenRoot | StaleKycRoot | StaleSanctionRoot
    | StaleAssetsRoot | AuditorPkMismatch | InvalidProof
    | MalformedPublicInputs | NextIndexMismatch
    | RecipientNotAuthorised | AlreadyFrozen | AssetNotRegistered | TokenTransferFailed
    | IntentExists | IntentNotFound | IntentSettled | EscrowCmMismatch | SwapOutputMismatch
    | NotFullyDeposited | DeadlinePassed | DeadlineNotReached | DeadlineInPast
}
