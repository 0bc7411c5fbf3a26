/** The contract itself: storage fields written step by step (contracts/finnes/src/lib.rs, merkle.rs,
    state.rs, sac.rs), each entrypoint proved against ContractSpec, and the host's rollback. */
module Contract {
  import opened Wrappers
  import opened Hashing
  import opened RootWindows
  import opened ContractTypes
  import Spec = ContractSpec
  import opened ContractSpec

  type Byte = b: nat | b < 256

  const SCALAR_BYTES: nat := 32

  /** The big-endian bytes of a scalar: 32 of them, as many as it takes if it were wider. */
  function ScalarBytes(scalar: Fr): (bytes: seq<Byte>)
    ensures |bytes| >= SCALAR_BYTES && BigEndian(bytes) == scalar
    ensures scalar < Power256(SCALAR_BYTES) ==> |bytes| == SCALAR_BYTES
  {
    Digits(scalar, SCALAR_BYTES)
  }

  function Digits(n: nat, width: nat): (bytes: seq<Byte>)
    ensures |bytes| >= width && BigEndian(bytes) == n
    ensures n < Power256(width) ==> |bytes| == width
    decreases n + width
  {
    if n == 0 && width == 0 then []
    else Digits(n / 256, if width > 0 then width - 1 else 0) + [n % 256]
  }

  /** A scalar read as an amount: every byte but the last eight must be zero. */
  method ScalarToAmount(bytes: seq<Byte>) returns (r: Result<nat, Error>)
    requires |bytes| >= SCALAR_BYTES
    ensures BigEndian(bytes) < AMOUNT_BOUND ==> r == Success(BigEndian(bytes))
    ensures BigEndian(bytes) >= AMOUNT_BOUND ==> r == Failure(MalformedPublicInputs)
  {
    var high := |bytes| - 8;
    var i := 0;
    while i < high
      invariant 0 <= i <= high
      invariant BigEndian(bytes[..i]) == 0
    {
      BigEndianStep(bytes, i);
      if bytes[i] != 0 {
        BigEndianGrows(bytes, i + 1, high);
        BigEndianGrows(bytes, high, |bytes|);
        Power256Of8();
        assert bytes[..|bytes|] == bytes;
        return Failure(MalformedPublicInputs);
      }
      i := i + 1;
    }
    var lo := bytes[high..];
    BigEndianDropsZeros(bytes, high);
    BigEndianBound(lo);
    Power256Of8();
    return Success(BigEndian(lo));
  }

  function Power256(n: nat): (r: nat)
    ensures r > 0
  {
    if n == 0 then 1 else 256 * Power256(n - 1)
  }

  function BigEndian(bytes: seq<Byte>): nat {
    if |bytes| == 0 then 0 else 256 * BigEndian(bytes[..|bytes| - 1]) + bytes[|bytes| - 1]
  }

  lemma BigEndianStep(bytes: seq<Byte>, i: nat)
    requires i < |bytes|
    ensures BigEndian(bytes[..i + 1]) == 256 * BigEndian(bytes[..i]) + bytes[i]
  {
    assert bytes[..i + 1][..i] == bytes[..i];
  }

  lemma {:induction false} BigEndianGrows(bytes: seq<Byte>, i: nat, j: nat)
    requires i <= j <= |bytes| && BigEndian(bytes[..i]) > 0
    ensures BigEndian(bytes[..j]) >= Power256(j - i)
  {
    if i < j {
      BigEndianGrows(bytes, i, j - 1);
      BigEndianStep(bytes, j - 1);
    }
  }

  lemma {:induction false} BigEndianDropsZeros(bytes: seq<Byte>, i: nat)
    requires i <= |bytes| && BigEndian(bytes[..i]) == 0
    ensures BigEndian(bytes) == BigEndian(bytes[i..])
    decreases |bytes|
  {
    if i == |bytes| {
      assert bytes[..i] == bytes;
    } else {
      var n := |bytes| - 1;
      assert bytes[..n][..i] == bytes[..i];
      assert bytes[i..][..n - i] == bytes[..n][i..];
      BigEndianDropsZeros(bytes[..n], i);
    }
  }

  lemma {:induction false} BigEndianBound(bytes: seq<Byte>)
    ensures BigEndian(bytes) < Power256(|bytes|)
  {
    if |bytes| > 0 {
      BigEndianBound(bytes[..|bytes| - 1]);
    }
  }

  lemma Power256Of8()
    ensures Power256(8) == AMOUNT_BOUND
  {
    assert Power256(4) == 0x1_0000_0000;
    assert Power256(8) == 256 * (256 * (256 * (256 * Power256(4))));
  }

  /** Length first, then whether there is a stored frontier, then element by element; a mismatch is false,
      a wrong length or no frontier is an error. */
  method CheckOldFrontier(depth: nat, frontier: Option<seq<Fr>>, oldFrontier: seq<Fr>)
    returns (r: Result<bool, Error>)
    ensures |oldFrontier| != depth ==> r == Failure(MalformedPublicInputs)
    ensures |oldFrontier| == depth && frontier.None? ==> r == Failure(NotInitialized)
    ensures |oldFrontier| == depth && frontier.Some? ==> r == Success(frontier.value == oldFrontier)
  {
    if |oldFrontier| != depth {
      return Failure(MalformedPublicInputs);
    }
    if frontier.None? {
      return Failure(NotInitialized);
    }
    var stored := frontier.value;
    if |stored| != |oldFrontier| {
      return Success(false);
    }
    for i := 0 to |stored|
      invariant stored[..i] == oldFrontier[..i]
    {
      if stored[i] != oldFrontier[i] {
        return Success(false);
      }
    }
    assert stored[..|stored|] == stored && oldFrontier[..|stored|] == oldFrontier;
    return Success(true);
  }

  class FinnesContract {
    const deployment: Deployment

    var config: Config
    var main: TreeStore
    var escrow: TreeStore
    var nullifiers: set<Fr>
    var frozen: set<Fr>
    var registry: Registry
    var intents: map<IntentId, IntentRecord>
    var moves: seq<TokenMove>
    var events: seq<Event>

    function Storage(): State
      reads this
    {
      State(config, main, escrow, nullifiers, frozen, registry, intents, moves, events)
    }

    constructor (d: Deployment)
      ensures deployment == d && Storage() == Blank()
    {
      deployment := d;
      config := Blank().config;
      main, escrow := Blank().main, Blank().escrow;
      nullifiers, frozen, registry, intents := {}, {}, Registry(map[], map[]), map[];
      moves, events := [], [];
    }

    /** The call did what the specification says: same storage, or same error. */
    ghost predicate Realises(r: Result<(), Error>, spec: Result<State, Error>)
      reads this
    {
      if r.Success? then spec == Success(Storage()) else spec == Failure(r.error)
    }

    // ----- gates: read storage only -----

    method CheckIssuer(env: Env) returns (o: Outcome<Error>)
      ensures o == RequireIssuer(Storage(), env)
    {
      if !config.initialized {
        return Fail(NotInitialized);
      }
      return Need(config.issuer in env.auth, Unauthorized);
    }

    /** Anchor window, then nullifier freshness, then the strict frozen root. */
    method CheckSpendable(t: Tree, anchorRoot: Fr, nf0: Fr, nf1: Fr, suppliedFrozen: Fr) returns (o: Outcome<Error>)
      ensures o == CheckSpend(Storage(), t, anchorRoot, {nf0, nf1}, suppliedFrozen)
    {
      var roots := if t == Main then main.recentRoots else escrow.recentRoots;
      var found := WindowContains(roots, anchorRoot);
      if !found {
        return Fail(UnknownAnchorRoot);
      }
      if nf0 in nullifiers || nf1 in nullifiers {
        return Fail(NullifierAlreadyUsed);
      }
      return Need(suppliedFrozen == config.frozenRoot, StaleFrozenRoot);
    }

    method CheckWindow(w: WindowedRoot, root: Fr, error: Error) returns (o: Outcome<Error>)
      ensures o == Need(root in w.window, error)
    {
      var found := WindowContains(w.window, root);
      return Need(found, error);
    }

    method CheckAllRoots(roots: ComplianceRoots) returns (o: Outcome<Error>)
      ensures o == CheckCompliance(Storage(), roots)
    {
      o := CheckWindow(config.kyc, roots.kyc, StaleKycRoot);
      if o.Fail? {
        return;
      }
      o := CheckWindow(config.sanction, roots.sanction, StaleSanctionRoot);
      if o.Fail? {
        return;
      }
      o := CheckWindow(config.assets, roots.assets, StaleAssetsRoot);
      if o.Fail? {
        return;
      }
      o := Need(roots.auditorPk == config.auditorPk, AuditorPkMismatch);
    }

    method CheckAppend(t: Tree, io: TreeIo) returns (o: Outcome<Error>)
      ensures o == CheckTree(deployment.depth, Storage().TreeOf(t), io)
    {
      var stored := if t == Main then main else escrow;
      var same := CheckOldFrontier(deployment.depth, Some(stored.frontier), io.oldFrontier);
      if same.Failure? {
        return Fail(same.error);
      }
      if !same.value {
        return Fail(UnknownAnchorRoot);
      }
      return Need(io.nextIndex == stored.leafCount, NextIndexMismatch);
    }

    method CheckMintable(pi: ShieldInputs) returns (o: Outcome<Error>)
      ensures o == CheckMint(deployment.depth, Storage(), pi)
    {
      o := CheckWindow(config.kyc, pi.kycRoot, StaleKycRoot);
      if o.Fail? {
        return;
      }
      o := CheckWindow(config.assets, pi.assetsRoot, StaleAssetsRoot);
      if o.Fail? {
        return;
      }
      if pi.auditorPk != config.auditorPk {
        return Fail(AuditorPkMismatch);
      }
      o := CheckAppend(Main, pi.tree);
    }

    method CheckSpendableUnder(t: Tree, anchorRoot: Fr, nf0: Fr, nf1: Fr, roots: ComplianceRoots)
      returns (o: Outcome<Error>)
      ensures o == CheckCompliantSpend(Storage(), t, anchorRoot, {nf0, nf1}, roots)
    {
      o := CheckSpendable(t, anchorRoot, nf0, nf1, roots.frozen);
      if o.Pass? {
        o := CheckAllRoots(roots);
      }
    }

    method MatchDepositLeg(id: IntentId, cmOut: Fr) returns (r: Result<bool, Error>)
      ensures r == DepositLeg(Storage(), id, cmOut)
    {
      var known := id in intents;
      :- Need(known, IntentNotFound);
      var intent := intents[id];
      :- Need(!intent.settled, IntentSettled);
      if cmOut == intent.escrowACm && !intent.depositedA {
        return Success(true);
      } else if cmOut == intent.escrowBCm && !intent.depositedB {
        return Success(false);
      } else {
        return Failure(EscrowCmMismatch);
      }
    }

    method MatchRefundLeg(env: Env, id: IntentId, cmOut: Fr) returns (r: Result<bool, Error>)
      ensures r == RefundLeg(Storage(), env, id, cmOut)
    {
      var known := id in intents;
      :- Need(known, IntentNotFound);
      var intent := intents[id];
      :- Need(!intent.settled, IntentSettled);
      :- Need(env.now >= intent.deadline, DeadlineNotReached);
      if cmOut == intent.refundACm && intent.depositedA && !intent.refundedA {
        return Success(true);
      } else if cmOut == intent.refundBCm && intent.depositedB && !intent.refundedB {
        return Success(false);
      } else {
        return Failure(EscrowCmMismatch);
      }
    }

    method ReadSettleable(env: Env, id: IntentId) returns (r: Result<IntentRecord, Error>)
      ensures r == Settleable(Storage(), env, id)
    {
      var known := id in intents;
      :- Need(known, IntentNotFound);
      var intent := intents[id];
      :- Need(!intent.settled, IntentSettled);
      :- Need(intent.depositedA && intent.depositedB, NotFullyDeposited);
      :- Need(env.now < intent.deadline, DeadlinePassed);
      return Success(intent);
    }

    // ----- storage writes -----

    method InsertNullifier(nf: Fr)
      modifies this`nullifiers
      ensures nullifiers == old(nullifiers) + {nf}
    {
      nullifiers := nullifiers + {nf};
    }

    method SetIntent(id: IntentId, record: IntentRecord)
      modifies this`intents
      ensures intents == old(intents)[id := record]
    {
      intents := intents[id := record];
    }

    method Publish(e: Event)
      modifies this`events
      ensures events == old(events) + [e]
    {
      events := events + [e];
    }

    method ApplyToTree(t: Tree, io: TreeIo, inserts: nat) returns (o: Outcome<Error>)
      modifies this`main, this`escrow
      ensures var spec := Spec.ApplyTransition(deployment.depth, old(Storage()).TreeOf(t), io, inserts);
              if o.Pass? then spec.Success? && Storage() == old(Storage()).WithTree(t, spec.value)
              else spec == Failure(o.error)
    {
      if |io.newFrontier| != deployment.depth {
        return Fail(MalformedPublicInputs);
      }
      var stored := if t == Main then main else escrow;
      var roots := PushRecentRoot(stored.recentRoots, io.newRoot);
      var updated := TreeStore(io.newFrontier, io.newRoot, roots, SaturatingAdd(stored.leafCount, inserts));
      if t == Main {
        main := updated;
      } else {
        escrow := updated;
      }
      return Pass;
    }

    method MoveToken(env: Env, assetId: Fr, amount: Fr, pull: bool, party: Address) returns (o: Outcome<Error>)
      modifies this`moves
      ensures var s := old(Storage());
              var spec := if pull then Spec.Pull(s, env, assetId, party, amount)
                          else Spec.Pay(s, env, assetId, party, amount);
              if o.Pass? then spec == Success(Storage()) else spec == Failure(o.error)
    {
      if assetId !in registry.sacs {
        return Fail(AssetNotRegistered);
      }
      var read := ScalarToAmount(ScalarBytes(amount));
      if read.Failure? {
        return Fail(read.error);
      }
      if !env.tokenOk {
        return Fail(TokenTransferFailed);
      }
      var sac := registry.sacs[assetId];
      var ordered := read.value;
      var move := if pull then PullDeposit(assetId, sac, party, ordered) else PayOut(assetId, sac, party, ordered);
      moves := moves + [move];
      return Pass;
    }

    method SetWindowedRoot(w: WindowedRoot, root: Fr) returns (r: WindowedRoot)
      ensures r == Push(w, root)
    {
      var window := PushComplianceWindow(w.window, root);
      return WindowedRoot(root, window);
    }

    // ----- entrypoints -----

    method Init(env: Env, cfg: InitConfig) returns (r: Result<(), Error>)
      modifies this
      ensures Realises(r, Spec.Init(deployment, old(Storage()), env, cfg))
    {
      var initialized := config.initialized;
      :- Need(!initialized, AlreadyInitialized);
      :- Need(cfg.admin in env.auth, Unauthorized);
      :- Need(|cfg.initialFrontier| == deployment.depth, MalformedPublicInputs);
      var kyc := SetWindowedRoot(config.kyc, cfg.kycRoot);
      var sanction := SetWindowedRoot(config.sanction, cfg.sanctionRoot);
      var assets := SetWindowedRoot(config.assets, cfg.assetsRoot);
      config := Config(true, cfg.admin, cfg.issuerAuthority, cfg.auditorPk, kyc, sanction, assets, cfg.frozenRoot);
      main := TreeStore(cfg.initialFrontier, cfg.initialRoot, [cfg.initialRoot], 0);
      escrow := TreeStore(cfg.initialFrontier, cfg.initialRoot, [cfg.initialRoot], 0);
      return Success(());
    }

    method Shield(env: Env, depositor: Address, proof: Proof, pi: ShieldInputs) returns (r: Result<(), Error>)
      modifies this
      ensures Realises(r, Spec.Shield(deployment, old(Storage()), env, depositor, proof, pi))
    {
      var initialized := config.initialized;
      :- Need(initialized, NotInitialized);
      :- Need(depositor in env.auth, Unauthorized);
      :- CheckMintable(pi);
      :- Need(deployment.verify(ShieldStatement(pi), proof), InvalidProof);
      :- MoveToken(env, pi.assetId, pi.amount, true, depositor);
      :- ApplyToTree(Main, pi.tree, 1);
      Publish(ShieldEvent(pi.assetId, pi.amount, pi.cmOut, pi.tree.newRoot));
      return Success(());
    }

    method ConfidentialTransfer(env: Env, proof: Proof, pi: TransferInputs) returns (r: Result<(), Error>)
      modifies this
      ensures Realises(r, Spec.ConfidentialTransfer(deployment, old(Storage()), env, proof, pi))
    {
      var initialized := config.initialized;
      :- Need(initialized, NotInitialized);
      :- CheckSpendableUnder(Main, pi.anchorRoot, pi.nfIn0, pi.nfIn1, pi.roots);
      :- CheckAppend(Main, pi.tree);
      :- Need(deployment.verify(TransferStatement(pi), proof), InvalidProof);
      InsertNullifier(pi.nfIn0);
      InsertNullifier(pi.nfIn1);
      :- ApplyToTree(Main, pi.tree, 2);
      Publish(TransferEvent(pi.nfIn0, pi.nfIn1, pi.cmOut0, pi.cmOut1, pi.tree.newRoot));
      assert nullifiers == old(nullifiers) + {pi.nfIn0, pi.nfIn1};
      return Success(());
    }

    method SettleDvp(env: Env, partyA: Address, partyB: Address, proof: Proof, pi: DvpInputs)
      returns (r: Result<(), Error>)
      modifies this
      ensures Realises(r, Spec.SettleDvp(deployment, old(Storage()), env, partyA, partyB, proof, pi))
    {
      var initialized := config.initialized;
      :- Need(initialized, NotInitialized);
      :- Need(partyA in env.auth, Unauthorized);
      :- Need(partyB in env.auth, Unauthorized);
      :- CheckSpendableUnder(Main, pi.anchorRoot, pi.nfLegX, pi.nfLegY, pi.roots);
      :- CheckAppend(Main, pi.tree);
      :- Need(deployment.verify(DvpStatement(pi), proof), InvalidProof);
      InsertNullifier(pi.nfLegX);
      InsertNullifier(pi.nfLegY);
      :- ApplyToTree(Main, pi.tree, 2);
      Publish(DvpEvent(pi.nfLegX, pi.nfLegY, pi.cmOutX, pi.cmOutY, pi.tree.newRoot));
      assert nullifiers == old(nullifiers) + {pi.nfLegX, pi.nfLegY};
      return Success(());
    }

    method Unshield(env: Env, proof: Proof, pi: UnshieldInputs) returns (r: Result<(), Error>)
      modifies this
      ensures Realises(r, Spec.Unshield(deployment, old(Storage()), env, proof, pi))
    {
      var initialized := config.initialized;
      :- Need(initialized, NotInitialized);
      :- CheckSpendableUnder(Main, pi.anchorRoot, pi.nfIn, pi.nfIn, pi.roots);
      :- Need(pi.recipient in registry.recipients, RecipientNotAuthorised);
      var recipientAddr := registry.recipients[pi.recipient];
      :- CheckAppend(Main, pi.tree);
      :- Need(deployment.verify(UnshieldStatement(pi), proof), InvalidProof);
      InsertNullifier(pi.nfIn);
      var inserts := if pi.cmChange == 0 then 0 else 1;
      :- ApplyToTree(Main, pi.tree, inserts);
      :- MoveToken(env, pi.assetId, pi.amount, false, recipientAddr);
      Publish(UnshieldEvent(pi.nfIn, pi.assetId, pi.amount, pi.recipient, pi.cmChange, pi.tree.newRoot));
      return Success(());
    }

    method UpdateRoot(env: Env, kind: RootKind, root: Fr) returns (r: Result<(), Error>)
      modifies this
      ensures Realises(r, Spec.UpdateRoot(old(Storage()), env, kind, root))
    {
      var gate := CheckIssuer(env);
      :- gate;
      var previous := match kind case Kyc => config.kyc case Sanction => config.sanction case Assets => config.assets;
      var updated := SetWindowedRoot(previous, root);
      match kind {
        case Kyc => config := config.(kyc := updated);
        case Sanction => config := config.(sanction := updated);
        case Assets => config := config.(assets := updated);
      }
      Publish(RootUpdatedEvent(kind, root));
      return Success(());
    }

    method RegisterAsset(env: Env, assetId: Fr, sac: Address) returns (r: Result<(), Error>)
      modifies this
      ensures Realises(r, Spec.RegisterAsset(old(Storage()), env, assetId, sac))
    {
      var gate := CheckIssuer(env);
      :- gate;
      registry := registry.(sacs := registry.sacs[assetId := sac]);
      Publish(AssetRegisteredEvent(assetId, sac));
      return Success(());
    }

    method RegisterTransparent(env: Env, recipient: Fr, addr: Address) returns (r: Result<(), Error>)
      modifies this
      ensures Realises(r, Spec.RegisterTransparent(old(Storage()), env, recipient, addr))
    {
      var gate := CheckIssuer(env);
      :- gate;
      registry := registry.(recipients := registry.recipients[recipient := addr]);
      Publish(TransparentRegisteredEvent(recipient, addr));
      return Success(());
    }

    method Freeze(env: Env, cmTarget: Fr, newFrozenRoot: Fr) returns (r: Result<(), Error>)
      modifies this
      ensures Realises(r, Spec.Freeze(old(Storage()), env, cmTarget, newFrozenRoot))
    {
      var gate := CheckIssuer(env);
      :- gate;
      :- Need(cmTarget !in frozen, AlreadyFrozen);
      frozen := frozen + {cmTarget};
      config := config.(frozenRoot := newFrozenRoot);
      Publish(FreezeEvent(cmTarget, newFrozenRoot));
      return Success(());
    }

    method MintRecovery(env: Env, proof: Proof, pi: ShieldInputs) returns (r: Result<(), Error>)
      modifies this
      ensures Realises(r, Spec.MintRecovery(deployment, old(Storage()), env, proof, pi))
    {
      var gate := CheckIssuer(env);
      :- gate;
      :- CheckMintable(pi);
      :- Need(deployment.verify(ShieldStatement(pi), proof), InvalidProof);
      :- ApplyToTree(Main, pi.tree, 1);
      Publish(RecoveryEvent(pi.cmOut, pi.tree.newRoot));
      return Success(());
    }

    method CreateIntent(env: Env, partyA: Address, partyB: Address, id: IntentId, record: IntentRecord)
      returns (r: Result<(), Error>)
      modifies this
      ensures Realises(r, Spec.CreateIntent(old(Storage()), env, partyA, partyB, id, record))
    {
      var initialized := config.initialized;
      :- Need(initialized, NotInitialized);
      :- Need(partyA in env.auth, Unauthorized);
      :- Need(partyB in env.auth, Unauthorized);
      :- Need(id !in intents, IntentExists);
      :- Need(record.deadline > env.now, DeadlineInPast);
      var blank := record;
      blank := blank.(settled := false);
      blank := blank.(depositedA := false, depositedB := false);
      blank := blank.(refundedA := false, refundedB := false);
      SetIntent(id, blank);
      Publish(IntentCreatedEvent(id, blank.deadline));
      return Success(());
    }

    method EscrowDeposit(env: Env, depositor: Address, id: IntentId, proof: Proof, pi: EscrowLegInputs)
      returns (r: Result<(), Error>)
      modifies this
      ensures Realises(r, Spec.EscrowDeposit(deployment, old(Storage()), env, depositor, id, proof, pi))
    {
      var initialized := config.initialized;
      :- Need(initialized, NotInitialized);
      :- Need(depositor in env.auth, Unauthorized);
      var isA :- MatchDepositLeg(id, pi.cmOut);
      :- CheckSpendable(Main, pi.anchorRoot, pi.nfIn, pi.nfIn, pi.roots.frozen);
      :- CheckWindow(config.assets, pi.roots.assets, StaleAssetsRoot);
      :- Need(pi.roots.auditorPk == config.auditorPk, AuditorPkMismatch);
      :- CheckAppend(Escrow, pi.tree);
      :- Need(deployment.verify(EscrowDepositStatement(pi), proof), InvalidProof);
      InsertNullifier(pi.nfIn);
      :- ApplyToTree(Escrow, pi.tree, 1);
      SetIntent(id, MarkDeposited(intents[id], isA));
      Publish(EscrowDepositedEvent(id, pi.nfIn, pi.cmOut, pi.tree.newRoot));
      return Success(());
    }

    method SettleIntent(env: Env, id: IntentId, proof: Proof, pi: DvpInputs) returns (r: Result<(), Error>)
      modifies this
      ensures Realises(r, Spec.SettleIntent(deployment, old(Storage()), env, id, proof, pi))
    {
      var initialized := config.initialized;
      :- Need(initialized, NotInitialized);
      var intent :- ReadSettleable(env, id);
      :- CheckSpendableUnder(Escrow, pi.anchorRoot, pi.nfLegX, pi.nfLegY, pi.roots);
      :- Need(pi.cmOutX == intent.outBCm && pi.cmOutY == intent.outACm, SwapOutputMismatch);
      :- CheckAppend(Main, pi.tree);
      :- Need(deployment.verify(DvpStatement(pi), proof), InvalidProof);
      InsertNullifier(pi.nfLegX);
      InsertNullifier(pi.nfLegY);
      :- ApplyToTree(Main, pi.tree, 2);
      SetIntent(id, intent.(settled := true));
      Publish(IntentSettledEvent(id, pi.nfLegX, pi.nfLegY, pi.cmOutX, pi.cmOutY, pi.tree.newRoot));
      assert nullifiers == old(nullifiers) + {pi.nfLegX, pi.nfLegY};
      return Success(());
    }

    method EscrowRefund(env: Env, refunder: Address, id: IntentId, proof: Proof, pi: EscrowLegInputs)
      returns (r: Result<(), Error>)
      modifies this
      ensures Realises(r, Spec.EscrowRefund(deployment, old(Storage()), env, refunder, id, proof, pi))
    {
      var initialized := config.initialized;
      :- Need(initialized, NotInitialized);
      :- Need(refunder in env.auth, Unauthorized);
      var isA :- MatchRefundLeg(env, id, pi.cmOut);
      :- CheckSpendableUnder(Escrow, pi.anchorRoot, pi.nfIn, pi.nfIn, pi.roots);
      :- CheckAppend(Main, pi.tree);
      :- Need(deployment.verify(EscrowRefundStatement(pi), proof), InvalidProof);
      InsertNullifier(pi.nfIn);
      :- ApplyToTree(Main, pi.tree, 1);
      SetIntent(id, MarkRefunded(intents[id], isA));
      Publish(EscrowRefundedEvent(id, pi.nfIn, pi.cmOut, pi.tree.newRoot));
      return Success(());
    }

    // ----- the host -----

    method Dispatch(env: Env, call: Call) returns (r: Result<(), Error>)
      modifies this
      ensures Realises(r, Exec(deployment, old(Storage()), env, call))
    {
      match call {
        case DoInit(config) => r := Init(env, config);
        case DoShield(depositor, proof, pi) => r := Shield(env, depositor, proof, pi);
        case DoTransfer(proof, pi) => r := ConfidentialTransfer(env, proof, pi);
        case DoSettleDvp(a, b, proof, pi) => r := SettleDvp(env, a, b, proof, pi);
        case DoUnshield(proof, pi) => r := Unshield(env, proof, pi);
        case DoUpdateRoot(kind, root) => r := UpdateRoot(env, kind, root);
        case DoRegisterAsset(assetId, sac) => r := RegisterAsset(env, assetId, sac);
        case DoRegisterTransparent(recipient, addr) => r := RegisterTransparent(env, recipient, addr);
        case DoFreeze(cm, root) => r := Freeze(env, cm, root);
        case DoMintRecovery(proof, pi) => r := MintRecovery(env, proof, pi);
        case DoCreateIntent(a, b, id, record) => r := CreateIntent(env, a, b, id, record);
        case DoEscrowDeposit(depositor, id, proof, pi) => r := EscrowDeposit(env, depositor, id, proof, pi);
        case DoSettleIntent(id, proof, pi) => r := SettleIntent(env, id, proof, pi);
        case DoEscrowRefund(refunder, id, proof, pi) => r := EscrowRefund(env, refunder, id, proof, pi);
      }
    }

    method Restore(saved: State)
      modifies this
      ensures Storage() == saved
    {
      config, main, escrow := saved.config, saved.main, saved.escrow;
      nullifiers, frozen := saved.nullifiers, saved.frozen;
      registry, intents, moves, events := saved.registry, saved.intents, saved.moves, saved.events;
    }

    /** The host commits an accepted call and rolls a failing one back, including writes made before
        the failing step. */
    method Invoke(env: Env, call: Call) returns (r: Result<(), Error>)
      modifies this
      ensures Realises(r, Exec(deployment, old(Storage()), env, call))
      ensures r.Failure? ==> Storage() == old(Storage())
    {
      var saved := Storage();
      r := Dispatch(env, call);
      if r.Failure? {
        Restore(saved);
      }
    }
  }
}
