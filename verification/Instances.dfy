/** The theorems about honest and about unexpected calls are about something: a hash, a host decoding and a
    sound verifier, and runs from init that reach each of those calls. */
module Instances {
  import opened Wrappers
  import opened Hashing
  import opened MerkleTree
  import opened IncrementalTree
  import opened FrozenSet
  import opened Notes
  import opened ContractTypes
  import opened Circuits
  import opened ContractSpec
  import opened Moves
  import opened Ledger
  import opened Conservation
  import opened EventLog
  import opened FrozenRuns
  import opened Wallet
  import opened HonestCalls
  import opened ValueLaws

  // ----- one deployment -----

  /** Only even digests, so that every digest has a second, odd encoding. */
  function Doubled(h: Hash): Hash {
    Hash(a => Twice(h.one(a)), (a, b) => Twice(h.two(a, b)), (a, b, c, d, e) => Twice(h.five(a, b, c, d, e)))
  }

  function Twice(x: Fr): Fr {
    2 * x
  }

  lemma DoubledIsCollisionFree(h: Hash)
    requires CollisionFree(h)
    ensures CollisionFree(Doubled(h))
  {
    forall a, b, c, d, e, a', b', c', d', e' | Doubled(h).five(a, b, c, d, e) == Doubled(h).five(a', b', c', d', e')
      ensures a == a' && b == b' && c == c' && d == d' && e == e'
    {
      assert h.five(a, b, c, d, e) == h.five(a', b', c', d', e');
    }
    forall a, b, c, d | Doubled(h).two(a, b) == Doubled(h).two(c, d)
      ensures a == c && b == d
    {
      assert h.two(a, b) == h.two(c, d);
    }
    assert forall a, b, c, d, e :: Doubled(h).five(a, b, c, d, e) == 2 * h.five(a, b, c, d, e);
  }

  /** The host drops the lowest bit. */
  function Drop(x: Fr): Fr {
    x - x % 2
  }

  function Setting(): Params {
    Params(Doubled(PAIRING), 8 * NOTE_VALUE_BOUND, 3, x => Drop(x))
  }

  /** Its verifier accepts what has a witness and nothing else. */
  ghost function Deployed(): Deployment {
    Deployment(3, (st: Statement, proof: Proof) => exists w :: Holds(Setting(), st, w))
  }

  lemma SettingIsAssumed()
    ensures Assumed(Setting(), Deployed()) && SoundVerifier(Setting(), Deployed().verify)
  {
    CollisionFreeIsSatisfiable();
    DoubledIsCollisionFree(PAIRING);
  }

  const ISSUER: Address := 0
  const SIGNED := Env(0, {ISSUER}, true)
  const ANY_PROOF := Proof(0, 0, 0)

  /** Two notes of one owner, worth 1 each. */
  function NoteOf(rho: Fr): Note {
    Note(0, 1, DeriveOwnerPk(Setting().hash, 0), rho, 0)
  }

  function OwnedAt(index: nat): Owned {
    Owned(NoteOf(index), 0, index)
  }

  function Top(): Fr {
    Commitment(Setting().hash, NoteOf(0)) + Commitment(Setting().hash, NoteOf(1)) + 1
  }

  function Config0(): InitConfig {
    InitConfig(ISSUER, ISSUER, 0, 0, 0, 0, FrozenRoot(Setting().hash, 3, Top(), []),
               Zeros(Setting().hash, 3), Zero(Setting().hash, 3))
  }

  // ----- a fresh deployment -----

  ghost predicate Seeded(ps: Params, max: Fr, cfg: InitConfig) {
    && cfg.initialFrontier == Zeros(ps.hash, ps.depth) && cfg.initialRoot == Zero(ps.hash, ps.depth)
    && 0 < max && cfg.frozenRoot == FrozenRoot(ps.hash, ps.depth, max, [])
  }

  function RootsOf(cfg: InitConfig): ComplianceRoots {
    ComplianceRoots(cfg.kycRoot, cfg.sanctionRoot, cfg.assetsRoot, cfg.frozenRoot, cfg.auditorPk)
  }

  /** A signed init with the empty seeds is accepted, leaves a live world and accepts its own roots. */
  lemma InitIsLive(ps: Params, d: Deployment, max: Fr, env: Env, cfg: InitConfig) returns (w: World)
    requires Assumed(ps, d) && Seeded(ps, max, cfg) && cfg.admin in env.auth
    ensures Exec(d, Blank(), env, DoInit(cfg)) == Success(w.state)
    ensures Genesis(ps, w) && Live(ps, d, max, w)
    ensures Compliant(w.state, RootsOf(cfg)) && w.state.config.issuer == cfg.issuerAuthority
  {
    var state := Exec(d, Blank(), env, DoInit(cfg)).value;
    var g := Grove([], [Zero(ps.hash, ps.depth)]);
    w := World(state, g, g, {}, Books(0, 0, 0));
    InitIsGenesis(ps, d, env, cfg, state);
    GenesisIsConsistent(ps, w);
    GenesisIsFrozenOk(ps, max, w);
  }

  // ----- minting -----

  /** An accepted call that freezes nothing leaves a live world. */
  lemma AcceptedKeepsLive(ps: Params, d: Deployment, max: Fr, asset: Fr, w: World, step: Step)
    requires Live(ps, d, max, w) && FaithfulStep(ps, d, step) && Accepted(d, w, step) && !step.call.DoFreeze?
    ensures var w' := Advance(ps, d, asset, w, step);
            Live(ps, d, max, w') && FreezeLog(w'.state.events) == FreezeLog(w.state.events)
  {
    StepKeepsConsistent(ps, d, asset, w, step);
    AdvanceKeepsFrozen(ps, d, asset, max, w, step);
    AcceptedEmits(d, w.state, step.env, step.call, Exec(d, w.state, step.env, step.call).value);
    FreezeLogAppends(w.state.events, step.call);
  }

  /** The verifier accepts this proof of whatever has a witness. */
  ghost predicate Complete(ps: Params, verify: Verifier, proof: Proof) {
    forall st, w :: Holds(ps, st, w) ==> verify(st, proof)
  }

  function MintStep(ps: Params, w: World, env: Env, proof: Proof, roots: ComplianceRoots, out: Note): Step {
    var (pi, evidence) := LiveMint(ps, w, roots.kyc, roots.assets, out, 0);
    Step(env, DoMintRecovery(proof, pi), evidence)
  }

  /** What the world holds after some recovery mints and nothing else. */
  ghost predicate Minted(ps: Params, w: World, config: Config, notes: seq<Note>) {
    && w.main.leaves == Commitments(ps.hash, notes) && w.spent == {}
    && w.state.nullifiers == {} && w.state.config == config && FreezeLog(w.state.events) == []
    && w.books.fees == w.books.repeats == 0
  }

  /** What a mint needs besides a live world. */
  ghost predicate MintTerms(
    ps: Params, d: Deployment, config: Config, env: Env, proof: Proof, roots: ComplianceRoots, out: Note)
  {
    && config.issuer in env.auth && Complete(ps, d.verify, proof) && out.value < NOTE_VALUE_BOUND
    && roots.kyc in config.kyc.window && roots.assets in config.assets.window
  }

  lemma LiveMintIsAccepted(
    ps: Params, d: Deployment, max: Fr, w: World, env: Env, proof: Proof, roots: ComplianceRoots, out: Note)
    requires Live(ps, d, max, w) && HasRoom(ps, w, Main, 1)
    requires MintTerms(ps, d, w.state.config, env, proof, roots, out)
    ensures var step := MintStep(ps, w, env, proof, roots, out); Accepted(d, w, step) && FaithfulStep(ps, d, step)
  {
    HonestMintIsAccepted(ps, d, max, w, env, 0, proof, roots.kyc, roots.assets, out, 0);
  }

  /** All that a recovery mint changes is the Main leaf list. */
  lemma MintChanges(ps: Params, d: Deployment, asset: Fr, w: World, step: Step, out: Note)
    requires Accepted(d, w, step) && step.call.DoMintRecovery? && step.evidence == ShieldWitness(out)
    ensures var w' := Advance(ps, d, asset, w, step);
            && w'.main.leaves == w.main.leaves + Commitments(ps.hash, [out]) && w'.spent == w.spent
            && w'.state.nullifiers == w.state.nullifiers && w'.state.config == w.state.config
            && FreezeLog(w'.state.events) == FreezeLog(w.state.events)
            && w'.books.fees == w.books.fees && w'.books.repeats == w.books.repeats
  {
    FreezeLogAppends(w.state.events, step.call);
  }

  lemma MintAppends(
    ps: Params, d: Deployment, max: Fr, asset: Fr, w: World, env: Env, proof: Proof, roots: ComplianceRoots,
    notes: seq<Note>, out: Note)
    requires Live(ps, d, max, w) && Minted(ps, w, w.state.config, notes) && |notes| < Pow2(ps.depth)
    requires MintTerms(ps, d, w.state.config, env, proof, roots, out)
    ensures var step := MintStep(ps, w, env, proof, roots, out);
            && Accepted(d, w, step) && FaithfulStep(ps, d, step)
            && Minted(ps, Advance(ps, d, asset, w, step), w.state.config, notes + [out])
  {
    var step := MintStep(ps, w, env, proof, roots, out);
    LiveMintIsAccepted(ps, d, max, w, env, proof, roots, out);
    MintChanges(ps, d, asset, w, step, out);
    assert Commitments(ps.hash, notes + [out]) == Commitments(ps.hash, notes) + Commitments(ps.hash, [out]);
  }

  /** A run without freezes from a live world ends in one. */
  lemma RunKeepsLive(ps: Params, d: Deployment, max: Fr, asset: Fr, w: World, steps: seq<Step>)
    requires Live(ps, d, max, w) && Faithful(ps, d, steps) && FreezesNothing(steps)
    ensures Live(ps, d, max, Run(ps, d, asset, w, steps))
  {
    RunRefinesTrees(ps, d, asset, w, steps);
    RunKeepsFrozen(ps, d, asset, max, w, steps);
  }

  lemma RunOneMore(ps: Params, d: Deployment, asset: Fr, w: World, steps: seq<Step>, step: Step)
    ensures Run(ps, d, asset, w, steps + [step]) == Advance(ps, d, asset, Run(ps, d, asset, w, steps), step)
  {
    assert (steps + [step])[..|steps|] == steps;
  }

  ghost predicate FreezesNothing(steps: seq<Step>) {
    forall i :: 0 <= i < |steps| ==> !steps[i].call.DoFreeze?
  }

  lemma MintAfter(
    ps: Params, d: Deployment, max: Fr, asset: Fr, w: World, steps: seq<Step>, env: Env, proof: Proof,
    roots: ComplianceRoots, notes: seq<Note>, out: Note) returns (step: Step)
    requires Live(ps, d, max, w) && Faithful(ps, d, steps) && FreezesNothing(steps)
    requires Minted(ps, Run(ps, d, asset, w, steps), w.state.config, notes) && |notes| < Pow2(ps.depth)
    requires MintTerms(ps, d, w.state.config, env, proof, roots, out)
    ensures FaithfulStep(ps, d, step) && step.call.DoMintRecovery?
    ensures Minted(ps, Run(ps, d, asset, w, steps + [step]), w.state.config, notes + [out])
  {
    var before := Run(ps, d, asset, w, steps);
    step := MintStep(ps, before, env, proof, roots, out);
    RunKeepsLive(ps, d, max, asset, w, steps);
    MintAppends(ps, d, max, asset, before, env, proof, roots, notes, out);
    RunOneMore(ps, d, asset, w, steps, step);
  }

  /** Two recovery mints append their notes and nothing else. */
  lemma MintBoth(
    ps: Params, d: Deployment, max: Fr, asset: Fr, w: World, env: Env, proof: Proof, roots: ComplianceRoots,
    x: Note, y: Note) returns (steps: seq<Step>)
    requires Live(ps, d, max, w) && Minted(ps, w, w.state.config, []) && 2 <= Pow2(ps.depth)
    requires MintTerms(ps, d, w.state.config, env, proof, roots, x)
    requires MintTerms(ps, d, w.state.config, env, proof, roots, y)
    ensures Faithful(ps, d, steps) && FreezesNothing(steps)
    ensures Minted(ps, Run(ps, d, asset, w, steps), w.state.config, [x, y])
  {
    var first := MintAfter(ps, d, max, asset, w, [], env, proof, roots, [], x);
    var second := MintAfter(ps, d, max, asset, w, [] + [first], env, proof, roots, [] + [x], y);
    steps := [] + [first] + [second];
    assert [x, y] == [] + [x] + [y];
  }

  // ----- two minted notes -----

  /** A fresh deployment that accepts what has a witness, and two notes of one owner to be minted there. */
  ghost predicate Scene(
    ps: Params, d: Deployment, max: Fr, w: World, env: Env, proof: Proof, roots: ComplianceRoots, a: Owned, b: Owned)
  {
    && Genesis(ps, w) && Live(ps, d, max, w) && Compliant(w.state, roots) && 6 <= Pow2(ps.depth)
    && MintTerms(ps, d, w.state.config, env, proof, roots, a.note)
    && MintTerms(ps, d, w.state.config, env, proof, roots, b.note)
    && Spends(ps, max, a, 0) && Spends(ps, max, b, 1)
    && a.ownerSk == b.ownerSk && a.note.assetId == b.note.assetId
  }

  /** The owner can spend the note once it is the leaf at `index`, under its own nullifier. */
  ghost predicate Spends(ps: Params, max: Fr, o: Owned, index: nat) {
    && o.index == index && o.note.ownerPk == DeriveOwnerPk(ps.hash, o.ownerSk)
    && 0 < Commitment(ps.hash, o.note) < max && Encodes(ps, NullifierOf(ps.hash, o), o)
  }

  lemma MintedIsUntouched(ps: Params, max: Fr, w: World, config: Config, notes: seq<Note>, o: Owned, index: nat)
    requires Minted(ps, w, config, notes) && index < |notes| <= Pow2(ps.depth) && o.note == notes[index]
    requires o.note.value < NOTE_VALUE_BOUND && Spends(ps, max, o, index) && Fits([], ps.depth)
    ensures Untouched(ps, max, w, o)
  {
    FittingListIsReached([], ps.depth, Commitment(ps.hash, o.note));
  }

  /** What the run of the two mints leaves. */
  ghost predicate Prepared(
    ps: Params, d: Deployment, max: Fr, w: World, roots: ComplianceRoots, a: Owned, b: Owned)
  {
    && Live(ps, d, max, w) && Compliant(w.state, roots) && Balanced(ps, a.note.assetId, w)
    && |w.main.leaves| + 4 <= Pow2(ps.depth) && w.state.nullifiers == {}
    && Untouched(ps, max, w, a) && Untouched(ps, max, w, b)
    && w.books.fees == w.books.repeats == 0
  }

  lemma PreparedRun(
    ps: Params, d: Deployment, max: Fr, w: World, env: Env, proof: Proof, roots: ComplianceRoots, a: Owned, b: Owned)
    returns (steps: seq<Step>)
    requires Scene(ps, d, max, w, env, proof, roots, a, b)
    ensures Faithful(ps, d, steps) && Prepared(ps, d, max, Run(ps, d, a.note.assetId, w, steps), roots, a, b)
  {
    var asset, notes := a.note.assetId, [a.note, b.note];
    steps := MintBoth(ps, d, max, asset, w, env, proof, roots, a.note, b.note);
    var w' := Run(ps, d, asset, w, steps);
    RunKeepsLive(ps, d, max, asset, w, steps);
    GenesisRunBalances(ps, d, asset, w, steps);
    MintedIsUntouched(ps, max, w', w.state.config, notes, a, 0);
    MintedIsUntouched(ps, max, w', w.state.config, notes, b, 1);
  }

  // ----- runs on which the promises fail -----

  ghost predicate EndsUncovered(ps: Params, d: Deployment, asset: Fr, w: World, steps: seq<Step>) {
    Faithful(ps, d, steps) && !Covered(ps, asset, Run(ps, d, asset, w, steps))
  }

  /** Steps i and i + 1 consume the same leaf and nothing else. */
  ghost predicate ConsumesTwice(
    ps: Params, d: Deployment, asset: Fr, w: World, steps: seq<Step>, i: nat, pos: Position)
  {
    && Faithful(ps, d, steps) && i + 2 == |steps|
    && ConsumedBy(d, Run(ps, d, asset, w, steps[..i]), steps[i]) == {pos}
    && ConsumedBy(d, Run(ps, d, asset, w, steps[..i + 1]), steps[i + 1]) == {pos}
  }

  /** A transfer with evidence, one step further. */
  lemma OneMoreTransfer(
    ps: Params, d: Deployment, asset: Fr, w: World, steps: seq<Step>, step: Step, proof: Proof, fee: int, repeats: nat)
    requires Faithful(ps, d, steps) && Complete(ps, d.verify, proof)
    requires step.call.DoTransfer? && step.call.proof == proof
    requires var before := Run(ps, d, asset, w, steps);
             && Balanced(ps, asset, before) && before.books.fees == before.books.repeats == 0
             && MovesCover(ps, d, asset, before, step, fee, repeats)
    ensures Faithful(ps, d, steps + [step])
    ensures Accepted(d, Run(ps, d, asset, w, steps), step)
    ensures Covered(ps, asset, Run(ps, d, asset, w, steps + [step])) <==> repeats <= fee
  {
    RunOneMore(ps, d, asset, w, steps, step);
  }

  /** A fee that wraps around ends uncovered, in every deployment and for every shortfall. */
  lemma WrappedFeeUncovers(
    ps: Params, d: Deployment, max: Fr, w: World, env: Env, proof: Proof, roots: ComplianceRoots, a: Owned, b: Owned,
    out0: Note, out1: Note) returns (steps: seq<Step>)
    requires Scene(ps, d, max, w, env, proof, roots, a, b)
    requires out0.assetId == out1.assetId == a.note.assetId
    requires out0.value < NOTE_VALUE_BOUND && out1.value < NOTE_VALUE_BOUND
    requires Shortfall(a, b, out0, out1) > 0
    ensures EndsUncovered(ps, d, a.note.assetId, w, steps)
  {
    var minted := PreparedRun(ps, d, max, w, env, proof, roots, a, b);
    var before := Run(ps, d, a.note.assetId, w, minted);
    WrappedFeeIsAccepted(ps, d, max, before, env, proof, roots, a, b, out0, out1);
    var step := HonestStep(ps, max, before, env, proof, roots, a, b, out0, out1, WrappedFee(ps, a, b, out0, out1));
    OneMoreTransfer(ps, d, a.note.assetId, w, minted, step, proof, -Shortfall(a, b, out0, out1), 0);
    steps := minted + [step];
  }

  /** So does naming one note of positive value twice. */
  lemma NamingTwiceUncovers(
    ps: Params, d: Deployment, max: Fr, w: World, env: Env, proof: Proof, roots: ComplianceRoots, a: Owned, b: Owned,
    out0: Note, out1: Note) returns (steps: seq<Step>)
    requires Scene(ps, d, max, w, env, proof, roots, a, b) && a.note.value > 0
    requires out0.assetId == out1.assetId == a.note.assetId
    requires out0.value < NOTE_VALUE_BOUND && out1.value < NOTE_VALUE_BOUND
    requires out0.value + out1.value == 2 * a.note.value
    ensures EndsUncovered(ps, d, a.note.assetId, w, steps)
  {
    var minted := PreparedRun(ps, d, max, w, env, proof, roots, a, b);
    var before := Run(ps, d, a.note.assetId, w, minted);
    NoteNamedTwiceIsAccepted(ps, d, max, before, env, proof, roots, a, out0, out1);
    var step := HonestStep(ps, max, before, env, proof, roots, a, a, out0, out1, 0);
    OneMoreTransfer(ps, d, a.note.assetId, w, minted, step, proof, 0, a.note.value);
    steps := minted + [step];
  }

  // ----- a run that consumes a leaf twice -----

  /** One leaf named as both inputs under an encoding of its nullifier that is not stored. */
  lemma SpendUnder(
    ps: Params, d: Deployment, max: Fr, w: World, env: Env, proof: Proof, roots: ComplianceRoots, a: Owned,
    out0: Note, out1: Note, nf: Fr) returns (step: Step)
    requires Live(ps, d, max, w) && Compliant(w.state, roots) && HasRoom(ps, w, Main, 2) && Owns(ps, max, w, Main, a)
    requires Complete(ps, d.verify, proof) && TransferTerms(ps, a, a, out0, out1, 0) && Names(ps, w, nf, a)
    ensures step.call.DoTransfer? && step.call.transfer.nfIn0 == step.call.transfer.nfIn1 == nf
    ensures step.evidence.TransferWitness?
    ensures FaithfulStep(ps, d, step) && Accepted(d, w, step)
    ensures ConsumedBy(d, w, step) == {Position(Main, a.index)}
  {
    step := TransferStep(ps, max, w, env, proof, roots, a, a, out0, out1, 0, nf, nf);
    LiveTransferHolds(ps, d, max, w, roots, a, a, out0, out1, 0, nf, nf);
    NamedPasses(ps, d, max, w, env, proof, roots, a, a, out0, out1, 0, nf, nf);
    TransferConsumes(ps, d, max, w, env, proof, roots, a, a, out0, out1, 0, nf, nf);
  }

  lemma TransferStored(d: Deployment, s: State, env: Env, call: Call, s': State)
    requires call.DoTransfer? && Exec(d, s, env, call) == Success(s')
    ensures s'.config == s.config && s'.nullifiers == s.nullifiers + {call.transfer.nfIn0, call.transfer.nfIn1}
  {
  }

  lemma TransferGrows(ps: Params, d: Deployment, asset: Fr, w: World, step: Step)
    requires step.call.DoTransfer? && step.evidence.TransferWitness? && Accepted(d, w, step)
    ensures var w' := Advance(ps, d, asset, w, step);
            w.main.leaves <= w'.main.leaves && |w'.main.leaves| == |w.main.leaves| + 2
  {
  }

  lemma LaterIsOwned(ps: Params, max: Fr, w: World, w': World, a: Owned)
    requires Owns(ps, max, w, Main, a) && w.main.leaves <= w'.main.leaves && |w'.main.leaves| <= Pow2(ps.depth)
    requires FreezeLog(w'.state.events) == FreezeLog(w.state.events)
    ensures Owns(ps, max, w', Main, a)
  {
  }

  /** A transfer leaves its inputs in the list and their owner's paths valid. */
  lemma StillOwned(ps: Params, d: Deployment, max: Fr, asset: Fr, w: World, step: Step, a: Owned)
    requires Live(ps, d, max, w) && Owns(ps, max, w, Main, a) && HasRoom(ps, w, Main, 2)
    requires step.call.DoTransfer? && step.evidence.TransferWitness?
    requires FaithfulStep(ps, d, step) && Accepted(d, w, step)
    ensures var w' := Advance(ps, d, asset, w, step);
            && Live(ps, d, max, w') && Owns(ps, max, w', Main, a) && |w'.main.leaves| == |w.main.leaves| + 2
            && w'.state.config == w.state.config
            && w'.state.nullifiers
               == w.state.nullifiers + {step.call.transfer.nfIn0, step.call.transfer.nfIn1}
  {
    TransferStored(d, w.state, step.env, step.call, Exec(d, w.state, step.env, step.call).value);
    TransferGrows(ps, d, asset, w, step);
    AcceptedKeepsLive(ps, d, max, asset, w, step);
    LaterIsOwned(ps, max, w, Advance(ps, d, asset, w, step), a);
  }

  /** Under an encoding that was not used, the note can be spent once more. */
  lemma StillSpendable(
    ps: Params, d: Deployment, max: Fr, asset: Fr, w: World, step: Step, roots: ComplianceRoots, a: Owned, nf: Fr)
    requires Live(ps, d, max, w) && Owns(ps, max, w, Main, a) && |w.main.leaves| + 4 <= Pow2(ps.depth)
    requires Compliant(w.state, roots) && w.state.nullifiers == {} && Encodes(ps, nf, a)
    requires step.call.DoTransfer? && step.evidence.TransferWitness?
    requires FaithfulStep(ps, d, step) && Accepted(d, w, step)
    requires nf != step.call.transfer.nfIn0 == step.call.transfer.nfIn1
    ensures var w' := Advance(ps, d, asset, w, step);
            && Live(ps, d, max, w') && Compliant(w'.state, roots) && HasRoom(ps, w', Main, 2)
            && Owns(ps, max, w', Main, a) && Names(ps, w', nf, a)
  {
    StillOwned(ps, d, max, asset, w, step, a);
  }

  lemma SpendTwice(
    ps: Params, d: Deployment, max: Fr, w: World, env: Env, proof: Proof, roots: ComplianceRoots, a: Owned, b: Owned,
    out0: Note, out1: Note, nf: Fr) returns (first: Step, second: Step)
    requires Prepared(ps, d, max, w, roots, a, b) && Complete(ps, d.verify, proof)
    requires TransferTerms(ps, a, a, out0, out1, 0) && Encodes(ps, nf, a) && nf != NullifierOf(ps.hash, a)
    ensures FaithfulStep(ps, d, first) && ConsumedBy(d, w, first) == {Position(Main, a.index)}
    ensures FaithfulStep(ps, d, second)
    ensures ConsumedBy(d, Advance(ps, d, a.note.assetId, w, first), second) == {Position(Main, a.index)}
  {
    first := SpendUnder(ps, d, max, w, env, proof, roots, a, out0, out1, NullifierOf(ps.hash, a));
    StillSpendable(ps, d, max, a.note.assetId, w, first, roots, a, nf);
    second := SpendUnder(ps, d, max, Advance(ps, d, a.note.assetId, w, first), env, proof, roots, a, out0, out1, nf);
  }

  lemma TwoMore(
    ps: Params, d: Deployment, asset: Fr, w: World, steps: seq<Step>, first: Step, second: Step, pos: Position)
    requires Faithful(ps, d, steps) && FaithfulStep(ps, d, first) && FaithfulStep(ps, d, second)
    requires var before := Run(ps, d, asset, w, steps);
             && ConsumedBy(d, before, first) == {pos}
             && ConsumedBy(d, Advance(ps, d, asset, before, first), second) == {pos}
    ensures ConsumesTwice(ps, d, asset, w, steps + [first] + [second], |steps|, pos)
  {
    var all := steps + [first] + [second];
    RunOneMore(ps, d, asset, w, steps, first);
    assert all[..|steps|] == steps && all[..|steps| + 1] == steps + [first];
  }

  /** Where the host reads two scalars as one nullifier, a run consumes a leaf twice. */
  lemma SecondEncodingConsumesTwice(
    ps: Params, d: Deployment, max: Fr, w: World, env: Env, proof: Proof, roots: ComplianceRoots, a: Owned, b: Owned,
    out0: Note, out1: Note, nf: Fr) returns (steps: seq<Step>, i: nat)
    requires Scene(ps, d, max, w, env, proof, roots, a, b) && TransferTerms(ps, a, a, out0, out1, 0)
    requires Encodes(ps, nf, a) && nf != NullifierOf(ps.hash, a)
    ensures ConsumesTwice(ps, d, a.note.assetId, w, steps, i, Position(Main, a.index))
  {
    var asset := a.note.assetId;
    var minted := PreparedRun(ps, d, max, w, env, proof, roots, a, b);
    var before := Run(ps, d, asset, w, minted);
    var first, second := SpendTwice(ps, d, max, before, env, proof, roots, a, b, out0, out1, nf);
    steps, i := minted + [first] + [second], |minted|;
    TwoMore(ps, d, asset, w, minted, first, second, Position(Main, a.index));
  }

  // ----- the setting is such a scene -----

  /** The odd encoding of the first note's nullifier. */
  function OddNullifier(): Fr {
    NullifierOf(Setting().hash, OwnedAt(0)) + 1
  }

  lemma NotesAreSpendable(index: nat)
    requires index < 2
    ensures Spends(Setting(), Top(), OwnedAt(index), index)
    ensures Encodes(Setting(), OddNullifier(), OwnedAt(0)) && OddNullifier() != NullifierOf(Setting().hash, OwnedAt(0))
  {
    var o := OwnedAt(index);
    assert NullifierOf(Setting().hash, o) == Twice(PAIRING.two(o.note.rho, 0));
    assert NullifierOf(Setting().hash, OwnedAt(0)) == Twice(PAIRING.two(0, 0));
    assert Commitment(Setting().hash, o.note) > 0 by {
      CollisionFreeIsSatisfiable();
    }
  }

  ghost predicate Staged(w: World) {
    Scene(Setting(), Deployed(), Top(), w, SIGNED, ANY_PROOF, RootsOf(Config0()), OwnedAt(0), OwnedAt(1))
  }

  lemma SettingIsScene() returns (w: World)
    ensures Staged(w) && Exec(Deployed(), Blank(), SIGNED, DoInit(Config0())) == Success(w.state)
  {
    SettingIsAssumed();
    NotesAreSpendable(0);
    NotesAreSpendable(1);
    ProofsAreComplete();
    OneOwnerInSetting();
    w := InitIsScene(Setting(), Deployed(), Top(), SIGNED, ANY_PROOF, Config0(), OwnedAt(0), OwnedAt(1));
  }

  lemma InitIsScene(
    ps: Params, d: Deployment, max: Fr, env: Env, proof: Proof, cfg: InitConfig, a: Owned, b: Owned)
    returns (w: World)
    requires Assumed(ps, d) && Seeded(ps, max, cfg) && cfg.admin in env.auth && cfg.issuerAuthority in env.auth
    requires 6 <= Pow2(ps.depth) && Complete(ps, d.verify, proof)
    requires Spends(ps, max, a, 0) && Spends(ps, max, b, 1)
    requires a.ownerSk == b.ownerSk && a.note.assetId == b.note.assetId
    requires a.note.value < NOTE_VALUE_BOUND && b.note.value < NOTE_VALUE_BOUND
    ensures Exec(d, Blank(), env, DoInit(cfg)) == Success(w.state)
    ensures Scene(ps, d, max, w, env, proof, RootsOf(cfg), a, b)
  {
    w := InitIsLive(ps, d, max, env, cfg);
  }

  lemma OneOwnerInSetting()
    ensures OwnedAt(0).ownerSk == OwnedAt(1).ownerSk && OwnedAt(0).note.assetId == OwnedAt(1).note.assetId
    ensures OwnedAt(0).note.value < NOTE_VALUE_BOUND && OwnedAt(1).note.value < NOTE_VALUE_BOUND
    ensures 6 <= Pow2(Setting().depth) && ISSUER in SIGNED.auth
  {
    assert Pow2(3) == 2 * Pow2(2);
  }

  lemma ProofsAreComplete()
    ensures Complete(Setting(), Deployed().verify, ANY_PROOF)
  {
  }

  lemma TermsInSetting()
    ensures TransferTerms(Setting(), OwnedAt(0), OwnedAt(0), OutOf(1), OutOf(1), 0)
    ensures OwnedAt(0).note.assetId == OwnedAt(0).index == 0
  {
  }

  lemma ValuesInSetting()
    ensures Shortfall(OwnedAt(0), OwnedAt(1), OutOf(2), OutOf(1)) > 0
    ensures OutOf(1).value + OutOf(1).value == 2 * OwnedAt(0).note.value && OwnedAt(0).note.value > 0
    ensures OwnedAt(0).note.assetId == OutOf(2).assetId == OutOf(1).assetId == 0
    ensures OutOf(1).value < NOTE_VALUE_BOUND && OutOf(2).value < NOTE_VALUE_BOUND
  {
  }

  function OutOf(value: nat): Note {
    Note(0, value, 0, 0, 0)
  }

  lemma OddNullifierEncodes()
    ensures Encodes(Setting(), OddNullifier(), OwnedAt(0)) && OddNullifier() != NullifierOf(Setting().hash, OwnedAt(0))
  {
    NotesAreSpendable(0);
  }

  lemma WrappedInSetting(w: World) returns (steps: seq<Step>)
    requires Staged(w)
    ensures EndsUncovered(Setting(), Deployed(), 0, w, steps)
  {
    ValuesInSetting();
    steps := WrappedFeeUncovers(Setting(), Deployed(), Top(), w, SIGNED, ANY_PROOF, RootsOf(Config0()),
                                OwnedAt(0), OwnedAt(1), OutOf(2), OutOf(1));
  }

  lemma TwiceInSetting(w: World) returns (steps: seq<Step>)
    requires Staged(w)
    ensures EndsUncovered(Setting(), Deployed(), 0, w, steps)
  {
    ValuesInSetting();
    steps := NamingTwiceUncovers(Setting(), Deployed(), Top(), w, SIGNED, ANY_PROOF, RootsOf(Config0()),
                                 OwnedAt(0), OwnedAt(1), OutOf(1), OutOf(1));
  }

  lemma AgainInSetting(w: World) returns (steps: seq<Step>, i: nat)
    requires Staged(w)
    ensures ConsumesTwice(Setting(), Deployed(), 0, w, steps, i, Position(Main, 0))
  {
    OddNullifierEncodes();
    TermsInSetting();
    steps, i := SecondEncodingConsumesTwice(Setting(), Deployed(), Top(), w, SIGNED, ANY_PROOF, RootsOf(Config0()),
                                            OwnedAt(0), OwnedAt(1), OutOf(1), OutOf(1), OddNullifier());
  }

  /** Starting from init, under a sound verifier: a run that a wrapped fee leaves uncovered, one that naming a
      note twice leaves uncovered, and one that consumes a leaf twice. */
  lemma EachGapIsReached() returns (w: World, wrapped: seq<Step>, twice: seq<Step>, again: seq<Step>, i: nat)
    ensures SoundVerifier(Setting(), Deployed().verify)
    ensures Exec(Deployed(), Blank(), SIGNED, DoInit(Config0())) == Success(w.state) && Genesis(Setting(), w)
    ensures EndsUncovered(Setting(), Deployed(), 0, w, wrapped) && EndsUncovered(Setting(), Deployed(), 0, w, twice)
    ensures ConsumesTwice(Setting(), Deployed(), 0, w, again, i, Position(Main, 0))
  {
    SettingIsAssumed();
    w := SettingIsScene();
    wrapped := WrappedInSetting(w);
    twice := TwiceInSetting(w);
    again, i := AgainInSetting(w);
  }
}
