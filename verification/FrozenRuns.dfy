/** Freezing over whole runs: with an issuer that supplies the root the SDK computes, a frozen
    commitment never moves again, through any entrypoint. */
module FrozenRuns {
  import opened Wrappers
  import opened Hashing
  import opened FrozenSet
  import opened Notes
  import opened ContractTypes
  import opened Circuits
  import opened ContractSpec
  import opened Moves
  import opened Ledger
  import opened EventLog

  /** The issuer computes the root from the freezes published so far, as computeFreeze does, which refuses a
      target out of range. */
  ghost predicate HonestFreeze(ps: Params, max: Fr, s: State, call: Call) {
    call.DoFreeze? ==>
      var listed := FreezeLog(s.events) + [call.cmTarget];
      && 0 < call.cmTarget < max
      && call.newFrozenRoot == FrozenRoot(ps.hash, ps.depth, max, listed)
  }

  /** Every accepted freeze of the run is honest; what is rejected does not matter. */
  ghost predicate HonestIssuer(ps: Params, d: Deployment, asset: Fr, max: Fr, w: World, steps: seq<Step>) {
    forall i :: 0 <= i < |steps| && Accepted(d, Run(ps, d, asset, w, steps[..i]), steps[i]) ==>
                  HonestFreeze(ps, max, Run(ps, d, asset, w, steps[..i]).state, steps[i].call)
  }

  /** The root names the set, which is what the list holds. */
  ghost predicate NamesFrozen(ps: Params, max: Fr, listed: seq<Fr>, frozen: set<Fr>, root: Fr) {
    && (forall c :: c in listed <==> c in frozen)
    && 0 < max && InRange(listed, max)
    && root == FrozenRoot(ps.hash, ps.depth, max, listed)
  }

  /** The stored root names the stored set, which is the set of published freezes. */
  ghost predicate FrozenOk(ps: Params, max: Fr, s: State) {
    s.config.initialized && NamesFrozen(ps, max, FreezeLog(s.events), s.frozen, s.config.frozenRoot)
  }

  lemma FreezingOneMore(ps: Params, max: Fr, listed: seq<Fr>, frozen: set<Fr>, root: Fr, cm: Fr, newRoot: Fr)
    requires NamesFrozen(ps, max, listed, frozen, root)
    requires 0 < cm < max
    requires newRoot == FrozenRoot(ps.hash, ps.depth, max, listed + [cm])
    ensures NamesFrozen(ps, max, listed + [cm], frozen + {cm}, newRoot)
  {
  }

  /** The genesis root is the root of the empty set. */
  lemma GenesisIsFrozenOk(ps: Params, max: Fr, w: World)
    requires Genesis(ps, w) && 0 < max
    requires w.state.config.frozenRoot == FrozenRoot(ps.hash, ps.depth, max, [])
    ensures FrozenOk(ps, max, w.state)
  {
  }

  lemma OtherCallsKeepFrozen(d: Deployment, s: State, env: Env, call: Call, s': State)
    requires s.config.initialized && Exec(d, s, env, call) == Success(s')
    requires !call.DoFreeze?
    ensures s'.frozen == s.frozen && s'.config.frozenRoot == s.config.frozenRoot && s'.config.initialized
  {
  }

  lemma FreezeKeepsFrozen(ps: Params, max: Fr, s: State, env: Env, call: Call, s': State)
    requires call.DoFreeze? && Freeze(s, env, call.cmTarget, call.newFrozenRoot) == Success(s')
    requires FrozenOk(ps, max, s) && HonestFreeze(ps, max, s, call)
    ensures FrozenOk(ps, max, s') && s'.frozen == s.frozen + {call.cmTarget}
  {
    assert s'.events == s.events + EventOf(call);
    FreezeLogAppends(s.events, call);
    FreezingOneMore(ps, max, FreezeLog(s.events), s.frozen, s.config.frozenRoot, call.cmTarget, call.newFrozenRoot);
  }

  lemma SameLogKeepsFrozen(ps: Params, max: Fr, s: State, s': State)
    requires FrozenOk(ps, max, s)
    requires FreezeLog(s'.events) == FreezeLog(s.events)
    requires s'.frozen == s.frozen && s'.config.frozenRoot == s.config.frozenRoot && s'.config.initialized
    ensures FrozenOk(ps, max, s')
  {
  }

  lemma StepKeepsFrozen(ps: Params, d: Deployment, max: Fr, s: State, env: Env, call: Call, s': State)
    requires Exec(d, s, env, call) == Success(s')
    requires FrozenOk(ps, max, s) && HonestFreeze(ps, max, s, call)
    ensures FrozenOk(ps, max, s') && s.frozen <= s'.frozen
    ensures call.DoFreeze? ==> call.cmTarget in s'.frozen
  {
    if call.DoFreeze? {
      FreezeKeepsFrozen(ps, max, s, env, call, s');
    } else {
      AcceptedEmits(d, s, env, call, s');
      FreezeLogAppends(s.events, call);
      OtherCallsKeepFrozen(d, s, env, call, s');
      SameLogKeepsFrozen(ps, max, s, s');
    }
  }

  lemma AdvanceKeepsFrozen(ps: Params, d: Deployment, asset: Fr, max: Fr, w: World, step: Step)
    requires FrozenOk(ps, max, w.state)
    requires Accepted(d, w, step) ==> HonestFreeze(ps, max, w.state, step.call)
    ensures var s' := Advance(ps, d, asset, w, step).state;
            && FrozenOk(ps, max, s') && w.state.frozen <= s'.frozen
            && (Accepted(d, w, step) && step.call.DoFreeze? ==> step.call.cmTarget in s'.frozen)
  {
    if Accepted(d, w, step) {
      var s' := Exec(d, w.state, step.env, step.call).value;
      StepKeepsFrozen(ps, d, max, w.state, step.env, step.call, s');
    }
  }

  /** After every honest run the stored root still names exactly the frozen commitments. */
  lemma {:induction false} RunKeepsFrozen(ps: Params, d: Deployment, asset: Fr, max: Fr, w: World, steps: seq<Step>)
    requires FrozenOk(ps, max, w.state) && HonestIssuer(ps, d, asset, max, w, steps)
    ensures FrozenOk(ps, max, Run(ps, d, asset, w, steps).state)
    decreases |steps|
  {
    if |steps| > 0 {
      var n := |steps| - 1;
      var before := Run(ps, d, asset, w, steps[..n]);
      HonestPrefix(ps, d, asset, max, w, steps, n);
      RunKeepsFrozen(ps, d, asset, max, w, steps[..n]);
      AdvanceKeepsFrozen(ps, d, asset, max, before, steps[n]);
      assert Run(ps, d, asset, w, steps) == Advance(ps, d, asset, before, steps[n]);
    }
  }

  lemma LastStepKeepsFrozen(ps: Params, d: Deployment, asset: Fr, max: Fr, w: World, steps: seq<Step>)
    requires |steps| > 0 && FrozenOk(ps, max, w.state) && HonestIssuer(ps, d, asset, max, w, steps)
    ensures Run(ps, d, asset, w, steps[..|steps| - 1]).state.frozen <= Run(ps, d, asset, w, steps).state.frozen
  {
    var n := |steps| - 1;
    var before := Run(ps, d, asset, w, steps[..n]);
    HonestPrefix(ps, d, asset, max, w, steps, n);
    RunKeepsFrozen(ps, d, asset, max, w, steps[..n]);
    AdvanceKeepsFrozen(ps, d, asset, max, before, steps[n]);
    assert Run(ps, d, asset, w, steps) == Advance(ps, d, asset, before, steps[n]);
  }

  /** Nothing is ever unfrozen. */
  lemma {:induction false} FrozenOnlyGrows(
    ps: Params, d: Deployment, asset: Fr, max: Fr, w: World, steps: seq<Step>, i: nat)
    requires FrozenOk(ps, max, w.state) && HonestIssuer(ps, d, asset, max, w, steps) && i <= |steps|
    ensures Run(ps, d, asset, w, steps[..i]).state.frozen <= Run(ps, d, asset, w, steps).state.frozen
    decreases |steps|
  {
    if i == |steps| {
      assert steps[..i] == steps;
    } else {
      var n := |steps| - 1;
      HonestPrefix(ps, d, asset, max, w, steps, n);
      assert steps[..n][..i] == steps[..i];
      FrozenOnlyGrows(ps, d, asset, max, w, steps[..n], i);
      LastStepKeepsFrozen(ps, d, asset, max, w, steps);
    }
  }

  lemma HonestPrefix(ps: Params, d: Deployment, asset: Fr, max: Fr, w: World, steps: seq<Step>, n: nat)
    requires HonestIssuer(ps, d, asset, max, w, steps) && n <= |steps|
    ensures HonestIssuer(ps, d, asset, max, w, steps[..n])
  {
    forall i | 0 <= i < n && Accepted(d, Run(ps, d, asset, w, steps[..n][..i]), steps[..n][i])
      ensures HonestFreeze(ps, max, Run(ps, d, asset, w, steps[..n][..i]).state, steps[..n][i].call)
    {
      assert steps[..n][..i] == steps[..i];
    }
  }

  // ----- frozen notes stay where they are -----

  /** Under the stored root a non-membership witness exists exactly for what is in range, not frozen and
      reached by the root, which is all that is in range and not frozen while the list fits the tree, and for
      what lies beyond the tail value. */
  lemma SpendableExactlyIfNotFrozen(ps: Params, max: Fr, s: State, cm: Fr)
    requires CollisionFree(ps.hash) && FrozenOk(ps, max, s)
    ensures (exists low, siblings, bits ::
               NonMember(ps.hash, ps.depth, s.config.frozenRoot, cm, low, siblings, bits))
            <==> cm > max || (0 < cm < max && cm !in s.frozen && Reached(FreezeLog(s.events), ps.depth, cm))
    ensures Fits(FreezeLog(s.events), ps.depth) ==> Reached(FreezeLog(s.events), ps.depth, cm)
  {
    NonMembershipExact(ps.hash, ps.depth, max, FreezeLog(s.events), cm);
  }

  /** An accepted spend, whatever the entrypoint, spends a note that is not frozen. */
  lemma AcceptedSpendIsNotFrozen(ps: Params, d: Deployment, max: Fr, w: World, step: Step, sp: Spend)
    requires Assumed(ps, d) && Consistent(ps, w) && FaithfulStep(ps, d, step) && FrozenOk(ps, max, w.state)
    requires Accepted(d, w, step) && MoveOf(step.call, step.evidence).Some?
    requires sp in MoveOf(step.call, step.evidence).value.spends
    ensures Commitment(ps.hash, sp.note) !in w.state.frozen
  {
    var s' := Exec(d, w.state, step.env, step.call).value;
    var m := MoveOf(step.call, step.evidence).value;
    AcceptedIsAttested(ps, d, w.state, step);
    AcceptedIsMove(ps, d, w.state, step.env, step.call, step.evidence, s');
    MoveSpendsUnfrozen(ps, max, w.state, s', m, sp);
  }

  lemma MoveSpendsUnfrozen(ps: Params, max: Fr, s: State, s': State, m: Move, sp: Spend)
    requires CollisionFree(ps.hash) && FrozenOk(ps, max, s)
    requires MoveHolds(ps, m) && Moved(s, s', m) && sp in m.spends
    ensures Commitment(ps.hash, sp.note) !in s.frozen
  {
    var i :| 0 <= i < |m.spends| && m.spends[i] == sp;
    assert SpendHolds(ps, m.anchorRoot, m.frozenRoot, ps.decode(m.nfs[i]), sp);
    NonMemberSound(ps.hash, ps.depth, max, FreezeLog(s.events), Commitment(ps.hash, sp.note),
                   sp.low, sp.lowSiblings, sp.lowBits);
  }

  /** What a step consumes is a leaf that is not frozen. */
  lemma ConsumedLeavesAreNotFrozen(ps: Params, d: Deployment, max: Fr, w: World, step: Step, pos: Position)
    requires Assumed(ps, d) && Consistent(ps, w) && FaithfulStep(ps, d, step) && FrozenOk(ps, max, w.state)
    requires pos in ConsumedBy(d, w, step)
    ensures pos.index < |w.GroveOf(pos.tree).leaves|
    ensures w.GroveOf(pos.tree).leaves[pos.index] !in w.state.frozen
  {
    var m := MoveOf(step.call, step.evidence).value;
    var sp :| sp in m.spends && pos == PositionOf(m.fromTree, sp);
    SpendsStayInTheirTree(ps, d, w, step, sp);
    SpendTreeOf(step.call, step.evidence);
    AcceptedSpendIsNotFrozen(ps, d, max, w, step, sp);
  }

  lemma FreezeTakesEffect(ps: Params, d: Deployment, asset: Fr, max: Fr, w: World, steps: seq<Step>, i: nat)
    requires i < |steps|
    requires FrozenOk(ps, max, w.state) && HonestIssuer(ps, d, asset, max, w, steps)
    requires steps[i].call.DoFreeze? && Accepted(d, Run(ps, d, asset, w, steps[..i]), steps[i])
    ensures steps[i].call.cmTarget in Run(ps, d, asset, w, steps[..i + 1]).state.frozen
  {
    var before := Run(ps, d, asset, w, steps[..i]);
    HonestPrefix(ps, d, asset, max, w, steps, i);
    RunKeepsFrozen(ps, d, asset, max, w, steps[..i]);
    AdvanceKeepsFrozen(ps, d, asset, max, before, steps[i]);
    assert steps[..i + 1][..i] == steps[..i];
    assert Run(ps, d, asset, w, steps[..i + 1]) == Advance(ps, d, asset, before, steps[i]);
  }

  lemma FrozenStaysFrozen(
    ps: Params, d: Deployment, asset: Fr, max: Fr, w: World, steps: seq<Step>, i: nat, j: nat)
    requires i < j <= |steps|
    requires FrozenOk(ps, max, w.state) && HonestIssuer(ps, d, asset, max, w, steps)
    requires steps[i].call.DoFreeze? && Accepted(d, Run(ps, d, asset, w, steps[..i]), steps[i])
    ensures FrozenOk(ps, max, Run(ps, d, asset, w, steps[..j]).state)
    ensures steps[i].call.cmTarget in Run(ps, d, asset, w, steps[..j]).state.frozen
  {
    FreezeTakesEffect(ps, d, asset, max, w, steps, i);
    HonestPrefix(ps, d, asset, max, w, steps, j);
    assert steps[..j][..i + 1] == steps[..i + 1];
    RunKeepsFrozen(ps, d, asset, max, w, steps[..j]);
    FrozenOnlyGrows(ps, d, asset, max, w, steps[..j], i + 1);
  }

  /** Once freeze(cm) is accepted, no later accepted call of any kind consumes a leaf equal to cm. */
  lemma FrozenNeverMoves(
    ps: Params, d: Deployment, asset: Fr, max: Fr, w: World, steps: seq<Step>, i: nat, j: nat, pos: Position)
    requires Assumed(ps, d) && Consistent(ps, w) && Faithful(ps, d, steps) && i < j < |steps|
    requires FrozenOk(ps, max, w.state) && HonestIssuer(ps, d, asset, max, w, steps)
    requires steps[i].call.DoFreeze? && Accepted(d, Run(ps, d, asset, w, steps[..i]), steps[i])
    requires pos in ConsumedBy(d, Run(ps, d, asset, w, steps[..j]), steps[j])
    ensures var at := Run(ps, d, asset, w, steps[..j]);
            && pos.index < |at.GroveOf(pos.tree).leaves|
            && at.GroveOf(pos.tree).leaves[pos.index] != steps[i].call.cmTarget
  {
    var at := Run(ps, d, asset, w, steps[..j]);
    FrozenStaysFrozen(ps, d, asset, max, w, steps, i, j);
    RunRefinesTrees(ps, d, asset, w, steps[..j]);
    ConsumedLeavesAreNotFrozen(ps, d, max, at, steps[j], pos);
  }

  /** From a fresh deployment seeded with the empty tree and the root of the empty frozen set. */
  lemma FrozenNeverMovesFromGenesis(
    ps: Params, d: Deployment, asset: Fr, max: Fr, w: World, steps: seq<Step>, i: nat, j: nat, pos: Position)
    requires Assumed(ps, d) && Genesis(ps, w) && Faithful(ps, d, steps) && i < j < |steps|
    requires 0 < max && w.state.config.frozenRoot == FrozenRoot(ps.hash, ps.depth, max, [])
    requires HonestIssuer(ps, d, asset, max, w, steps)
    requires steps[i].call.DoFreeze? && Accepted(d, Run(ps, d, asset, w, steps[..i]), steps[i])
    requires pos in ConsumedBy(d, Run(ps, d, asset, w, steps[..j]), steps[j])
    ensures var at := Run(ps, d, asset, w, steps[..j]);
            && pos.index < |at.GroveOf(pos.tree).leaves|
            && at.GroveOf(pos.tree).leaves[pos.index] != steps[i].call.cmTarget
  {
    GenesisIsConsistent(ps, w);
    GenesisIsFrozenOk(ps, max, w);
    FrozenNeverMoves(ps, d, asset, max, w, steps, i, j, pos);
  }

  // ----- freezing is always possible -----

  /** The call an honest issuer makes for a target. */
  function FreezeCall(ps: Params, max: Fr, s: State, cm: Fr): Call {
    DoFreeze(cm, FrozenRoot(ps.hash, ps.depth, max, FreezeLog(s.events) + [cm]))
  }

  lemma FreezeIsOpen(ps: Params, d: Deployment, max: Fr, s: State, env: Env, cm: Fr)
    requires FrozenOk(ps, max, s) && 0 < cm < max && s.config.issuer in env.auth
    ensures HonestFreeze(ps, max, s, FreezeCall(ps, max, s, cm))
    ensures Exec(d, s, env, FreezeCall(ps, max, s, cm)).Success? <==> cm !in s.frozen
    ensures cm !in s.frozen <==> cm !in FreezeLog(s.events)
  {
  }

  /** Over runs: after any run with honest freezes the issuer can freeze whatever is in range and not frozen. */
  lemma FreezeIsAlwaysOpen(
    ps: Params, d: Deployment, asset: Fr, max: Fr, w: World, steps: seq<Step>, env: Env, cm: Fr)
    requires FrozenOk(ps, max, w.state) && HonestIssuer(ps, d, asset, max, w, steps) && 0 < cm < max
    requires Run(ps, d, asset, w, steps).state.config.issuer in env.auth
    ensures var s := Run(ps, d, asset, w, steps).state;
            && HonestFreeze(ps, max, s, FreezeCall(ps, max, s, cm))
            && (Exec(d, s, env, FreezeCall(ps, max, s, cm)).Success? <==> cm !in s.frozen)
            && (cm !in s.frozen <==> cm !in FreezeLog(s.events))
  {
    RunKeepsFrozen(ps, d, asset, max, w, steps);
    FreezeIsOpen(ps, d, max, Run(ps, d, asset, w, steps).state, env, cm);
  }
}
