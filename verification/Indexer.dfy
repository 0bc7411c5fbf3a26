/** The indexer (frontend/lib/indexer.ts): leaf list and frozen set replayed from the event log, and the
    bridge over events that have aged out of retention. */
module Indexer {
  import opened Wrappers
  import opened Hashing
  import opened MerkleTree
  import opened IncrementalTree
  import opened FrozenSet
  import opened ContractTypes
  import opened Circuits
  import opened ContractSpec
  import opened ContractRuns
  import opened Moves
  import opened Ledger
  import opened EventLog
  import opened FrozenRuns

  // ----- what the log determines -----

  /** The leaves a call appended to a tree, read off its event. */
  function LeavesOf(e: Event, t: Tree): seq<Fr> {
    match e
    case ShieldEvent(_, _, cm, _) => if t == Main then [cm] else []
    case TransferEvent(_, _, cm0, cm1, _) => if t == Main then [cm0, cm1] else []
    case UnshieldEvent(_, _, _, _, change, _) => if t == Main && change != EMPTY_LEAF then [change] else []
    case RecoveryEvent(cm, _) => if t == Main then [cm] else []
    case DvpEvent(_, _, x, y, _) => if t == Main then [x, y] else []
    case IntentSettledEvent(_, _, _, x, y, _) => if t == Main then [x, y] else []
    case EscrowRefundedEvent(_, _, cm, _) => if t == Main then [cm] else []
    case EscrowDepositedEvent(_, _, cm, _) => if t == Escrow then [cm] else []
    case _ => []
  }

  function Appended(events: seq<Event>, t: Tree): seq<Fr> {
    if |events| == 0 then [] else Appended(events[..|events| - 1], t) + LeavesOf(events[|events| - 1], t)
  }

  ghost predicate Logged(w: World) {
    forall t :: w.GroveOf(t).leaves == Appended(w.state.events, t)
  }

  lemma AppendedOne(events: seq<Event>, e: Event, t: Tree)
    ensures Appended(events + [e], t) == Appended(events, t) + LeavesOf(e, t)
  {
    assert (events + [e])[..|events|] == events;
  }

  /** The event of a call carries exactly its public commitments, under the tree they went into. */
  lemma EventCarriesOutputs(call: Call, w: Witness, t: Tree)
    requires StatementOf(call).Some? && MoveOf(call, w).Some?
    ensures |EventOf(call)| == 1
    ensures LeavesOf(EventOf(call)[0], t) ==
            if t == MoveOf(call, w).value.intoTree then PublicOutputs(StatementOf(call).value) else []
  {
  }

  lemma QuietCallsAppendNothing(call: Call, t: Tree)
    requires StatementOf(call).None?
    ensures |EventOf(call)| == 1 ==> LeavesOf(EventOf(call)[0], t) == []
    ensures |EventOf(call)| <= 1
  {
  }

  lemma StepKeepsLogged(ps: Params, d: Deployment, asset: Fr, w: World, step: Step)
    requires Assumed(ps, d) && Consistent(ps, w) && FaithfulStep(ps, d, step) && Logged(w)
    ensures Logged(Advance(ps, d, asset, w, step))
  {
    if Accepted(d, w, step) {
      var s' := Exec(d, w.state, step.env, step.call).value;
      var w' := Advance(ps, d, asset, w, step);
      AcceptedEmits(d, w.state, step.env, step.call, s');
      if StatementOf(step.call).Some? {
        AcceptedIsAttested(ps, d, w.state, step);
        AttestedMoveHolds(ps, step.call, step.evidence);
        AdvanceOnMove(ps, d, asset, w, step, s');
        MoveIsLogged(ps, w, MoveOf(step.call, step.evidence).value, step.call, step.evidence, w');
      } else {
        AdministrativeCallsMoveNothing(d, w.state, step.env, step.call, s');
        QuietIsLogged(w, w', step.call);
      }
    }
  }

  lemma MoveIsLogged(ps: Params, w: World, m: Move, call: Call, evidence: Witness, w': World)
    requires Logged(w) && StatementOf(call).Some? && MoveOf(call, evidence) == Some(m)
    requires Commitments(ps.hash, m.outs) == PublicOutputs(StatementOf(call).value)
    requires WorldMoved(ps, w, w', m) && w'.state.events == w.state.events + EventOf(call)
    ensures Logged(w')
  {
    forall t
      ensures w'.GroveOf(t).leaves == Appended(w'.state.events, t)
    {
      EventCarriesOutputs(call, evidence, t);
      AppendedOne(w.state.events, EventOf(call)[0], t);
      assert EventOf(call) == [EventOf(call)[0]];
    }
  }

  lemma QuietIsLogged(w: World, w': World, call: Call)
    requires Logged(w) && StatementOf(call).None?
    requires w'.main == w.main && w'.escrow == w.escrow && w'.state.events == w.state.events + EventOf(call)
    ensures Logged(w')
  {
    forall t
      ensures w'.GroveOf(t).leaves == Appended(w'.state.events, t)
    {
      QuietCallsAppendNothing(call, t);
      if |EventOf(call)| == 0 {
        assert w'.state.events == w.state.events;
      } else {
        AppendedOne(w.state.events, EventOf(call)[0], t);
        assert EventOf(call) == [EventOf(call)[0]];
      }
    }
  }

  /** Event sourcing: after every run the log determines both leaf lists. */
  lemma {:induction false} RunIsLogged(ps: Params, d: Deployment, asset: Fr, w: World, steps: seq<Step>)
    requires Assumed(ps, d) && Consistent(ps, w) && Faithful(ps, d, steps) && Logged(w)
    ensures Logged(Run(ps, d, asset, w, steps))
    decreases |steps|
  {
    if |steps| > 0 {
      var n := |steps| - 1;
      var before := Run(ps, d, asset, w, steps[..n]);
      RunIsLogged(ps, d, asset, w, steps[..n]);
      RunRefinesTrees(ps, d, asset, w, steps[..n]);
      StepKeepsLogged(ps, d, asset, before, steps[n]);
      assert Run(ps, d, asset, w, steps) == Advance(ps, d, asset, before, steps[n]);
    }
  }

  // ----- what the indexer replays -----

  /** The leaves the indexer takes from one event: it knows shield, transfer, unshield and recovery. */
  function ReplayedOf(e: Event): seq<Fr> {
    match e
    case ShieldEvent(_, _, cm, _) => [cm]
    case TransferEvent(_, _, cm0, cm1, _) => [cm0, cm1]
    case UnshieldEvent(_, _, _, _, change, _) => if change != 0 then [change] else []
    case RecoveryEvent(cm, _) => [cm]
    case _ => []
  }

  function Replayed(events: seq<Event>): seq<Fr> {
    if |events| == 0 then [] else Replayed(events[..|events| - 1]) + ReplayedOf(events[|events| - 1])
  }

  method FetchLiveCommitments(effects: seq<Event>) returns (leaves: seq<Fr>)
    ensures leaves == Replayed(effects)
  {
    leaves := [];
    for i := 0 to |effects|
      invariant leaves == Replayed(effects[..i])
    {
      assert effects[..i + 1][..i] == effects[..i];
      var e := effects[i];
      if e.ShieldEvent? {
        leaves := leaves + [e.cmOut];
      } else if e.TransferEvent? {
        leaves := leaves + [e.cmOut0];
        leaves := leaves + [e.cmOut1];
      } else if e.UnshieldEvent? {
        if e.cmChange != 0 {
          leaves := leaves + [e.cmChange];
        }
      } else if e.RecoveryEvent? {
        leaves := leaves + [e.cmOut];
      }
    }
    assert effects[..|effects|] == effects;
  }

  /** Appends to the main tree that the indexer does not replay. */
  predicate Skipped(e: Event) {
    e.DvpEvent? || e.IntentSettledEvent? || e.EscrowRefundedEvent?
  }

  /** One event's leaves are replayed as they are or not at all. */
  lemma SkippedOrReplayed(e: Event)
    ensures ReplayedOf(e) == if Skipped(e) then [] else LeavesOf(e, Main)
    ensures Skipped(e) ==> |LeavesOf(e, Main)| > 0
  {
  }

  /** The events the replay takes its leaves from. */
  function Known(events: seq<Event>): seq<Event> {
    if |events| == 0 then []
    else
      var last := events[|events| - 1];
      Known(events[..|events| - 1]) + if Skipped(last) then [] else [last]
  }

  /** The replay is the leaf list of the log without its skipped events, for every log. */
  lemma {:induction false} ReplayDropsSkipped(events: seq<Event>)
    ensures Replayed(events) == Appended(Known(events), Main)
    decreases |events|
  {
    if |events| > 0 {
      var n := |events| - 1;
      ReplayDropsSkipped(events[..n]);
      SkippedOrReplayed(events[n]);
      if Skipped(events[n]) {
        assert Known(events) == Known(events[..n]) + [] == Known(events[..n]);
        assert Replayed(events) == Replayed(events[..n]) + [] == Replayed(events[..n]);
      } else {
        AppendedOne(Known(events[..n]), events[n], Main);
      }
    }
  }

  lemma {:induction false} NothingSkippedNothingMissed(events: seq<Event>)
    requires forall e :: e in events ==> !Skipped(e)
    ensures Replayed(events) == Appended(events, Main)
    decreases |events|
  {
    if |events| > 0 {
      NothingSkippedNothingMissed(events[..|events| - 1]);
      SkippedOrReplayed(events[|events| - 1]);
    }
  }

  /** Each skipped event leaves a gap that no later event makes up for. */
  lemma {:induction false} ReplayedIsShorter(events: seq<Event>)
    ensures |Replayed(events)| <= |Appended(events, Main)|
    ensures |Replayed(events)| == |Appended(events, Main)| ==> forall i :: 0 <= i < |events| ==> !Skipped(events[i])
    decreases |events|
  {
    if |events| > 0 {
      ReplayedIsShorter(events[..|events| - 1]);
      SkippedOrReplayed(events[|events| - 1]);
    }
  }

  /** The replay is the main leaf list exactly in the runs without a dvp, a settlement or a refund. */
  lemma ReplayIsExact(ps: Params, d: Deployment, asset: Fr, w: World, steps: seq<Step>)
    requires Assumed(ps, d) && Genesis(ps, w) && Faithful(ps, d, steps)
    ensures var w' := Run(ps, d, asset, w, steps);
            Replayed(w'.state.events) == w'.main.leaves <==> forall e :: e in w'.state.events ==> !Skipped(e)
  {
    GenesisIsConsistent(ps, w);
    assert Logged(w);
    RunIsLogged(ps, d, asset, w, steps);
    var w' := Run(ps, d, asset, w, steps);
    assert w'.main.leaves == w'.GroveOf(Main).leaves == Appended(w'.state.events, Main);
    ReplayedIsShorter(w'.state.events);
    if forall e :: e in w'.state.events ==> !Skipped(e) {
      NothingSkippedNothingMissed(w'.state.events);
    }
  }

  lemma SkippedCallsSkip(call: Call)
    requires call.DoSettleDvp? || call.DoSettleIntent? || call.DoEscrowRefund?
    ensures |EventOf(call)| == 1 && Skipped(EventOf(call)[0])
  {
  }

  /** Every accepted DvP, settlement or refund leaves a gap in the replay for good. */
  lemma SkippedCallIsMissed(ps: Params, d: Deployment, asset: Fr, w: World, step: Step)
    requires Assumed(ps, d) && Consistent(ps, w) && FaithfulStep(ps, d, step) && Logged(w)
    requires Accepted(d, w, step)
    requires step.call.DoSettleDvp? || step.call.DoSettleIntent? || step.call.DoEscrowRefund?
    ensures var w' := Advance(ps, d, asset, w, step);
            |Replayed(w'.state.events)| < |w'.main.leaves|
  {
    var s' := Exec(d, w.state, step.env, step.call).value;
    var w' := Advance(ps, d, asset, w, step);
    StepKeepsLogged(ps, d, asset, w, step);
    AcceptedEmits(d, w.state, step.env, step.call, s');
    SkippedCallsSkip(step.call);
    assert w'.state == s' && s'.events[|w.state.events|] == EventOf(step.call)[0];
    assert w'.main.leaves == w'.GroveOf(Main).leaves;
    ReplayedIsShorter(s'.events);
  }

  /** Then the tree built from the replay is the contract's: same root, same frontier, same count. */
  lemma ReplayedTreeIsTheContracts(ps: Params, w: World)
    requires Consistent(ps, w) && Replayed(w.state.events) == w.main.leaves
    ensures var t := Replay(ps.hash, ps.depth, Replayed(w.state.events));
            t.root == w.state.main.root && t.frontier == w.state.main.frontier
            && |Replayed(w.state.events)| == w.state.main.leafCount
  {
    ReplayIsPerfect(ps.hash, ps.depth, w.main.leaves);
  }

  // ----- the aged-out prefix -----

  function FirstIndex(seed: seq<Fr>, x: Fr): (i: int)
    ensures -1 <= i < |seed|
    ensures i >= 0 ==> seed[i] == x && forall j :: 0 <= j < i ==> seed[j] != x
    ensures i == -1 ==> x !in seed
  {
    if |seed| == 0 then -1
    else
      var n := |seed| - 1;
      var earlier := FirstIndex(seed[..n], x);
      assert seed == seed[..n] + [seed[n]];
      if earlier >= 0 then earlier else if seed[n] == x then n else -1
  }

  function BridgeAgedOutPrefix(seed: seq<Fr>, events: seq<Fr>): seq<Fr> {
    if |events| == 0 then events
    else
      var p := FirstIndex(seed, events[0]);
      if p > 0 then seed[..p] + events else events
  }

  /** A first retained leaf that the seed knows: the seed before its first occurrence, then the replay. */
  lemma BridgeSplices(seed: seq<Fr>, events: seq<Fr>, p: nat)
    requires p < |seed| && |events| > 0 && seed[p] == events[0] && events[0] !in seed[..p]
    ensures BridgeAgedOutPrefix(seed, events) == seed[..p] + events
  {
    assert forall i :: 0 <= i < p ==> seed[..p][i] == seed[i];
    assert FirstIndex(seed, events[0]) == p;
    assert seed[..0] + events == events;
  }

  /** For every seed and every replay, the events are taken verbatim exactly when there are none, or the seed does
      not know the first, or starts with it. */
  lemma BridgeVerbatimExactly(seed: seq<Fr>, events: seq<Fr>)
    ensures BridgeAgedOutPrefix(seed, events) == events <==>
            |events| == 0 || events[0] !in seed || seed[0] == events[0]
  {
    if |events| > 0 && events[0] in seed {
      var p := FirstIndex(seed, events[0]);
      assert forall i :: 0 <= i < p ==> seed[..p][i] == seed[i];
      BridgeSplices(seed, events, p);
      assert |BridgeAgedOutPrefix(seed, events)| == p + |events|;
    }
  }

  /** With a seed that agrees with the leaf list, the bridge restores the full list from the leaves still
      retained exactly when nothing aged out, or some leaf is retained, the seed reaches past the gap and
      the first retained leaf does not occur earlier in the seed. */
  lemma BridgeRestoresExactly(seed: seq<Fr>, leaves: seq<Fr>, p: nat)
    requires p <= |leaves|
    requires forall i :: 0 <= i < |seed| && i < |leaves| ==> seed[i] == leaves[i]
    ensures BridgeAgedOutPrefix(seed, leaves[p..]) == leaves <==>
            p == 0 || (p < |seed| && p < |leaves| && leaves[p] !in seed[..p])
  {
    var events := leaves[p..];
    if p < |leaves| {
      var at := FirstIndex(seed, events[0]);
      assert p < |seed| ==> (at == p <==> leaves[p] !in seed[..p]);
      if at == p {
        assert seed[..p] == leaves[..p];
        assert leaves[..p] + leaves[p..] == leaves;
      } else if at > 0 {
        assert |BridgeAgedOutPrefix(seed, events)| == at + |leaves| - p;
      }
    }
  }

  /** The failing case at work: a repeated commitment anchors at its first occurrence. */
  lemma RepeatedSeedMisanchors()
    ensures BridgeAgedOutPrefix([5, 7, 5, 9], [5, 7, 5, 9][2..]) != [5, 7, 5, 9]
  {
    var seed := [5, 7, 5, 9];
    assert seed[..2][0] == 5;
    BridgeRestoresExactly(seed, seed, 2);
  }

  /** The stateful indexer's leaves start at leaf 0 and are taken as they are; without an indexer the
      replay is bridged. */
  method BuildChainTree(h: Hash, depth: nat, indexed: Option<seq<Fr>>, seed: seq<Fr>, effects: seq<Event>)
    returns (tree: IncrementalMerkleTree)
    ensures fresh(tree) && tree.Valid() && tree.hash == h && tree.depth == depth
    ensures tree.leaves == if indexed.Some? then indexed.value else BridgeAgedOutPrefix(seed, Replayed(effects))
  {
    var commitments;
    if indexed.Some? {
      commitments := indexed.value;
    } else {
      var live := FetchLiveCommitments(effects);
      commitments := BridgeAgedOutPrefix(seed, live);
    }
    tree := new IncrementalMerkleTree(h, depth);
    for i := 0 to |commitments|
      invariant tree.Valid() && tree.hash == h && tree.depth == depth
      invariant tree.leaves == commitments[..i]
    {
      var at := tree.Insert(commitments[i]);
    }
  }

  // ----- the frozen set -----

  /** The stateful indexer's answer if there is one, otherwise the replay of the freeze events. */
  method IndexFrozen(indexed: Option<(seq<Fr>, Option<Fr>)>, effects: seq<Event>)
    returns (frozen: seq<Fr>, frozenRoot: Option<Fr>)
    ensures indexed.Some? ==> (frozen, frozenRoot) == indexed.value
    ensures indexed.None? ==> frozen == FreezeLog(effects) && frozenRoot == LastFrozenRoot(effects)
  {
    if indexed.Some? {
      return indexed.value.0, indexed.value.1;
    }
    frozen, frozenRoot := [], None;
    for i := 0 to |effects|
      invariant frozen == FreezeLog(effects[..i])
      invariant frozenRoot == LastFrozenRoot(effects[..i])
    {
      assert effects[..i + 1][..i] == effects[..i];
      if effects[i].FreezeEvent? {
        frozen := frozen + [effects[i].cmTarget];
        frozenRoot := Some(effects[i].newFrozenRoot);
      }
    }
    assert effects[..|effects|] == effects;
  }

  function LastFrozenRoot(events: seq<Event>): Option<Fr> {
    if |events| == 0 then None
    else
      var last := events[|events| - 1];
      if last.FreezeEvent? then Some(last.newFrozenRoot) else LastFrozenRoot(events[..|events| - 1])
  }

  ghost predicate RootFollowsLog(s: State, genesisRoot: Fr) {
    && s.config.initialized
    && s.config.frozenRoot == match LastFrozenRoot(s.events) case Some(root) => root case None => genesisRoot
  }

  lemma CallKeepsRoot(d: Deployment, s: State, inv: Invocation, genesisRoot: Fr)
    requires RootFollowsLog(s, genesisRoot)
    ensures RootFollowsLog(Next(d, s, inv), genesisRoot)
  {
    if Exec(d, s, inv.env, inv.call).Success? {
      var s' := Next(d, s, inv);
      AcceptedEmits(d, s, inv.env, inv.call, s');
      EventsOfCall(inv.call);
      if inv.call.DoFreeze? {
        assert s'.config.frozenRoot == inv.call.newFrozenRoot && s'.config.initialized;
        assert s'.events[|s'.events| - 1] == FreezeEvent(inv.call.cmTarget, inv.call.newFrozenRoot);
      } else {
        OtherCallsKeepFrozen(d, s, inv.env, inv.call, s');
        assert |EventOf(inv.call)| == 1 ==> s'.events[..|s'.events| - 1] == s.events;
        assert |EventOf(inv.call)| == 0 ==> s'.events == s.events;
      }
    }
  }

  /** After every run, honest or not, the root the indexer reports is the stored one; with no freeze in
      the log it reports none and the genesis root stands. */
  lemma {:induction false} IndexedRootIsStored(d: Deployment, s: State, trace: seq<Invocation>)
    requires s.config.initialized && s.events == []
    ensures RootFollowsLog(After(d, s, trace), s.config.frozenRoot)
    decreases |trace|
  {
    if |trace| > 0 {
      IndexedRootIsStored(d, s, trace[..|trace| - 1]);
      CallKeepsRoot(d, After(d, s, trace[..|trace| - 1]), trace[|trace| - 1], s.config.frozenRoot);
    }
  }

  /** What the issuer's frontend does: read the frozen set off the log, compute the larger one, submit. The call
      is the honest one; signed by the issuer it is accepted, and there is none exactly for a target out of range
      or frozen already. */
  method FreezeCommitment(ps: Params, max: Fr, effects: seq<Event>, cm: Fr, ghost d: Deployment, ghost s: State,
                          ghost env: Env)
    returns (r: Result<Call, FreezeError>)
    requires FrozenOk(ps, max, s) && effects == s.events && s.config.issuer in env.auth
    ensures r.Success? <==> 0 < cm < max && cm !in s.frozen
    ensures r.Failure? ==> r.error == if 0 < cm < max then AlreadyInSet else OutOfRange
    ensures r.Success? ==>
              && r.value.DoFreeze? && r.value.cmTarget == cm
              && HonestFreeze(ps, max, s, r.value) && Exec(d, s, env, r.value).Success?
  {
    var frozen, frozenRoot := IndexFrozen(None, effects);
    var computed := ComputeFreeze(ps.hash, ps.depth, max, frozen, cm);
    if computed.Failure? {
      return Failure(computed.error);
    }
    return Success(DoFreeze(cm, computed.value.1));
  }
}
