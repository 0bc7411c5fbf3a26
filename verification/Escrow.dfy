/** The two-party escrow over whole runs of the contract. No proof is looked into here: this holds for
    every verifier. */
module Escrow {
  import opened Wrappers
  import opened ContractTypes
  import opened ContractSpec
  import opened ContractRuns

  // ----- how one call treats an intent -----

  /** The consented part of an intent. */
  predicate SameTerms(a: IntentRecord, b: IntentRecord) {
    && a.deadline == b.deadline
    && a.escrowACm == b.escrowACm && a.escrowBCm == b.escrowBCm
    && a.outACm == b.outACm && a.outBCm == b.outBCm
    && a.refundACm == b.refundACm && a.refundBCm == b.refundBCm
  }

  datatype Milestone = DepositedA | DepositedB | RefundedA | RefundedB | Settled

  predicate Flag(r: IntentRecord, m: Milestone) {
    match m
    case DepositedA => r.depositedA
    case DepositedB => r.depositedB
    case RefundedA => r.refundedA
    case RefundedB => r.refundedB
    case Settled => r.settled
  }

  predicate Reached(s: State, id: IntentId, m: Milestone) {
    id in s.intents && Flag(s.intents[id], m)
  }

  /** The milestone an accepted call stands for: which leg a deposit or refund matched. */
  function MilestoneOf(s: State, inv: Invocation): Option<(IntentId, Milestone)> {
    match inv.call
    case DoEscrowDeposit(_, id, _, pi) =>
      var leg := DepositLeg(s, id, pi.cmOut);
      if leg.Success? then Some((id, if leg.value then DepositedA else DepositedB)) else None
    case DoEscrowRefund(_, id, _, pi) =>
      var leg := RefundLeg(s, inv.env, id, pi.cmOut);
      if leg.Success? then Some((id, if leg.value then RefundedA else RefundedB)) else None
    case DoSettleIntent(id, _, _) => Some((id, Settled))
    case _ => None
  }

  /** What an accepted call demands of the intent it reaches a milestone of. */
  predicate Allowed(r: IntentRecord, now: nat, m: Milestone) {
    && !r.settled && !Flag(r, m)
    && match m
       case DepositedA => true
       case DepositedB => true
       case RefundedA => r.depositedA && now >= r.deadline
       case RefundedB => r.depositedB && now >= r.deadline
       case Settled => r.depositedA && r.depositedB && now < r.deadline
  }

  function WithFlag(r: IntentRecord, m: Milestone): IntentRecord {
    match m
    case DepositedA => r.(depositedA := true)
    case DepositedB => r.(depositedB := true)
    case RefundedA => r.(refundedA := true)
    case RefundedB => r.(refundedB := true)
    case Settled => r.(settled := true)
  }

  /** A call reaches at most one milestone of one intent, or creates one intent, and touches no other. */
  lemma CallOnIntents(d: Deployment, s: State, inv: Invocation, s': State)
    requires Exec(d, s, inv.env, inv.call) == Success(s')
    ensures match MilestoneOf(s, inv)
            case Some((id, m)) =>
              id in s.intents && Allowed(s.intents[id], inv.env.now, m)
              && s'.intents == s.intents[id := WithFlag(s.intents[id], m)]
            case None =>
              s'.intents == s.intents
              || exists id, r ::
                   && inv.call.DoCreateIntent? && id == inv.call.intentId && id !in s.intents
                   && s'.intents == s.intents[id := r] && SameTerms(r, inv.call.record)
                   && inv.env.now < r.deadline && forall m :: !Flag(r, m)
  {
    match inv.call
    case DoEscrowDeposit(who, id, proof, pi) => DepositOnIntents(d, s, inv.env, who, id, proof, pi, s');
    case DoEscrowRefund(who, id, proof, pi) => RefundOnIntents(d, s, inv.env, who, id, proof, pi, s');
    case DoSettleIntent(id, proof, pi) => SettleOnIntents(d, s, inv.env, id, proof, pi, s');
    case DoCreateIntent(a, b, id, record) =>
      var r := s'.intents[id];
      assert SameTerms(r, record) && forall m :: !Flag(r, m);
    case _ => OtherOnIntents(d, s, inv, s');
  }

  lemma OtherOnIntents(d: Deployment, s: State, inv: Invocation, s': State)
    requires Exec(d, s, inv.env, inv.call) == Success(s')
    requires !inv.call.DoEscrowDeposit? && !inv.call.DoEscrowRefund? && !inv.call.DoSettleIntent?
    requires !inv.call.DoCreateIntent?
    ensures s'.intents == s.intents
  {
  }

  lemma DepositOnIntents(
    d: Deployment, s: State, env: Env, who: Address, id: IntentId, proof: Proof, pi: EscrowLegInputs, s': State)
    requires EscrowDeposit(d, s, env, who, id, proof, pi) == Success(s')
    ensures var leg := DepositLeg(s, id, pi.cmOut);
            leg.Success? && id in s.intents
            && var m := if leg.value then DepositedA else DepositedB;
               Allowed(s.intents[id], env.now, m) && s'.intents == s.intents[id := WithFlag(s.intents[id], m)]
  {
  }

  lemma RefundOnIntents(
    d: Deployment, s: State, env: Env, who: Address, id: IntentId, proof: Proof, pi: EscrowLegInputs, s': State)
    requires EscrowRefund(d, s, env, who, id, proof, pi) == Success(s')
    ensures var leg := RefundLeg(s, env, id, pi.cmOut);
            leg.Success? && id in s.intents
            && var m := if leg.value then RefundedA else RefundedB;
               Allowed(s.intents[id], env.now, m) && s'.intents == s.intents[id := WithFlag(s.intents[id], m)]
  {
  }

  lemma SettleOnIntents(d: Deployment, s: State, env: Env, id: IntentId, proof: Proof, pi: DvpInputs, s': State)
    requires SettleIntent(d, s, env, id, proof, pi) == Success(s')
    ensures id in s.intents && Allowed(s.intents[id], env.now, Settled)
    ensures s'.intents == s.intents[id := WithFlag(s.intents[id], Settled)]
  {
  }

  /** Which leg a deposit or refund stands for: A whenever A matches, so two equal commitments are served in
      that order. */
  lemma LegsInOrder(d: Deployment, s: State, env: Env, call: Call, s': State)
    requires Exec(d, s, env, call) == Success(s')
    ensures match call
            case DoEscrowDeposit(_, id, _, pi) =>
              && id in s.intents
              && var r := s.intents[id];
              && s'.intents == s.intents[id := if pi.cmOut == r.escrowACm && !r.depositedA
                                               then r.(depositedA := true) else r.(depositedB := true)]
            case DoEscrowRefund(_, id, _, pi) =>
              && id in s.intents
              && var r := s.intents[id];
              && s'.intents == s.intents[id := if pi.cmOut == r.refundACm && r.depositedA && !r.refundedA
                                               then r.(refundedA := true) else r.(refundedB := true)]
            case DoSettleIntent(id, _, _) =>
              id in s.intents && s'.intents == s.intents[id := s.intents[id].(settled := true)]
            case DoCreateIntent(_, _, id, record) =>
              s'.intents == s.intents[id := IntentRecord(
                record.deadline, false, record.escrowACm, record.escrowBCm, record.outACm, record.outBCm,
                record.refundACm, record.refundBCm, false, false, false, false)]
            case _ => s'.intents == s.intents
  {
  }

  // ----- exclusivity -----

  /** Settled means both legs deposited and neither refunded; refunded means deposited and past the
      deadline. */
  predicate Exclusive(r: IntentRecord, now: nat) {
    && (r.settled ==> r.depositedA && r.depositedB && !r.refundedA && !r.refundedB)
    && (r.refundedA ==> r.depositedA && r.deadline <= now)
    && (r.refundedB ==> r.depositedB && r.deadline <= now)
  }

  ghost predicate IntentsOk(s: State, now: nat) {
    forall id :: id in s.intents ==> Exclusive(s.intents[id], now)
  }

  lemma StepKeepsExclusive(d: Deployment, s: State, inv: Invocation, now: nat)
    requires IntentsOk(s, now) && now <= inv.env.now
    ensures IntentsOk(Next(d, s, inv), inv.env.now)
  {
    if Exec(d, s, inv.env, inv.call).Success? {
      var s' := Next(d, s, inv);
      CallOnIntents(d, s, inv, s');
      forall id | id in s'.intents
        ensures Exclusive(s'.intents[id], inv.env.now)
      {
        if id in s.intents {
          assert Exclusive(s.intents[id], now);
        }
      }
    }
  }

  /** Exclusivity in every reachable state, under a clock that never runs back. */
  lemma {:induction false} RunKeepsExclusive(d: Deployment, s: State, trace: seq<Invocation>, start: nat)
    requires ClockRuns(trace) && IntentsOk(s, start) && (|trace| > 0 ==> start <= trace[0].env.now)
    ensures IntentsOk(After(d, s, trace), ClockAfter(trace, start))
    decreases |trace|
  {
    if |trace| > 0 {
      var n := |trace| - 1;
      RunKeepsExclusive(d, s, trace[..n], start);
      StepKeepsExclusive(d, After(d, s, trace[..n]), trace[n], ClockAfter(trace[..n], start));
    }
  }

  // ----- terms never change, flags never reset -----

  ghost predicate Extends(s: State, s': State) {
    forall id :: id in s.intents ==>
      && id in s'.intents
      && SameTerms(s.intents[id], s'.intents[id])
      && forall m :: Flag(s.intents[id], m) ==> Flag(s'.intents[id], m)
  }

  lemma StepExtends(d: Deployment, s: State, inv: Invocation)
    ensures Extends(s, Next(d, s, inv))
  {
    if Exec(d, s, inv.env, inv.call).Success? {
      CallOnIntents(d, s, inv, Next(d, s, inv));
    }
  }

  /** The deadline and the six commitments are fixed at creation, intents are never removed, and no flag
      is ever reset. */
  lemma {:induction false} RunExtends(d: Deployment, s: State, trace: seq<Invocation>, i: nat)
    requires i <= |trace|
    ensures Extends(After(d, s, trace[..i]), After(d, s, trace))
    decreases |trace|
  {
    if i == |trace| {
      assert trace[..i] == trace;
    } else {
      var n := |trace| - 1;
      assert trace[..n][..i] == trace[..i];
      RunExtends(d, s, trace[..n], i);
      StepExtends(d, After(d, s, trace[..n]), trace[n]);
    }
  }

  // ----- every milestone at most once -----

  /** How many accepted calls of a run reached the milestone. */
  function Times(d: Deployment, s: State, trace: seq<Invocation>, id: IntentId, m: Milestone): nat {
    if |trace| == 0 then 0
    else
      var n := |trace| - 1;
      var before := After(d, s, trace[..n]);
      Times(d, s, trace[..n], id, m)
      + if Exec(d, before, trace[n].env, trace[n].call).Success? && MilestoneOf(before, trace[n]) == Some((id, m))
        then 1 else 0
  }

  function Indicator(b: bool): nat {
    if b then 1 else 0
  }

  lemma StepCounts(d: Deployment, s: State, inv: Invocation, id: IntentId, m: Milestone)
    ensures Indicator(Reached(Next(d, s, inv), id, m)) == Indicator(Reached(s, id, m))
            + Indicator(Exec(d, s, inv.env, inv.call).Success? && MilestoneOf(s, inv) == Some((id, m)))
  {
    if Exec(d, s, inv.env, inv.call).Success? {
      CallOnIntents(d, s, inv, Next(d, s, inv));
    }
  }

  /** The flag is a counter: a milestone is reached by at most one accepted call of any run, and its flag
      is set exactly when that call happened. */
  lemma {:induction false} MilestonesCount(d: Deployment, s: State, trace: seq<Invocation>, id: IntentId, m: Milestone)
    ensures Indicator(Reached(After(d, s, trace), id, m))
         == Indicator(Reached(s, id, m)) + Times(d, s, trace, id, m)
    decreases |trace|
  {
    if |trace| > 0 {
      var n := |trace| - 1;
      MilestonesCount(d, s, trace[..n], id, m);
      StepCounts(d, After(d, s, trace[..n]), trace[n], id, m);
    }
  }

  /** The whole history of an intent: settlement happens at most once, after one deposit on each side and
      no refund; each leg is deposited at most once and refunded at most once, never before its deposit. */
  lemma IntentHistory(d: Deployment, s: State, trace: seq<Invocation>, start: nat, id: IntentId)
    requires s.intents == map[] && ClockRuns(trace) && (|trace| > 0 ==> start <= trace[0].env.now)
    ensures Times(d, s, trace, id, Settled) <= 1
    ensures Times(d, s, trace, id, Settled) == 1 ==>
              && Times(d, s, trace, id, DepositedA) == Times(d, s, trace, id, DepositedB) == 1
              && Times(d, s, trace, id, RefundedA) == Times(d, s, trace, id, RefundedB) == 0
    ensures Times(d, s, trace, id, RefundedA) <= Times(d, s, trace, id, DepositedA) <= 1
    ensures Times(d, s, trace, id, RefundedB) <= Times(d, s, trace, id, DepositedB) <= 1
  {
    forall m
      ensures Times(d, s, trace, id, m) == Indicator(Reached(After(d, s, trace), id, m))
    {
      MilestonesCount(d, s, trace, id, m);
    }
    RunKeepsExclusive(d, s, trace, start);
  }

  // ----- what a later call is held to -----

  /** What a call on an intent must supply, and when, by the terms of the intent. */
  predicate Honours(terms: IntentRecord, inv: Invocation) {
    match inv.call
    case DoEscrowDeposit(_, _, _, pi) => pi.cmOut == terms.escrowACm || pi.cmOut == terms.escrowBCm
    case DoSettleIntent(_, _, pi) =>
      pi.cmOutX == terms.outBCm && pi.cmOutY == terms.outACm && inv.env.now < terms.deadline
    case DoEscrowRefund(_, _, _, pi) =>
      (pi.cmOut == terms.refundACm || pi.cmOut == terms.refundBCm) && inv.env.now >= terms.deadline
    case _ => true
  }

  predicate ConcernsIntent(call: Call, id: IntentId) {
    match call
    case DoEscrowDeposit(_, i, _, _) => i == id
    case DoSettleIntent(i, _, _) => i == id
    case DoEscrowRefund(_, i, _, _) => i == id
    case _ => false
  }

  lemma AcceptedHonours(d: Deployment, s: State, inv: Invocation, id: IntentId)
    requires Exec(d, s, inv.env, inv.call).Success? && ConcernsIntent(inv.call, id)
    ensures id in s.intents && Honours(s.intents[id], inv)
  {
  }

  /** Consent binds: whatever is accepted later on an intent follows the very terms both parties signed
      when it was created. */
  lemma TermsBind(d: Deployment, s: State, trace: seq<Invocation>, i: nat, j: nat)
    requires i < j < |trace| && AcceptedAt(d, s, trace, i) && AcceptedAt(d, s, trace, j)
    requires trace[i].call.DoCreateIntent? && ConcernsIntent(trace[j].call, trace[i].call.intentId)
    ensures Honours(trace[i].call.record, trace[j])
    ensures {trace[i].call.partyA, trace[i].call.partyB} <= trace[i].env.auth
  {
    var id := trace[i].call.intentId;
    AfterStep(d, s, trace, i);
    CreationStores(d, After(d, s, trace[..i]), trace[i]);
    assert trace[..j][..i + 1] == trace[..i + 1];
    RunExtends(d, s, trace[..j], i + 1);
    AcceptedHonours(d, After(d, s, trace[..j]), trace[j], id);
  }

  lemma CreationStores(d: Deployment, s: State, inv: Invocation)
    requires inv.call.DoCreateIntent? && Exec(d, s, inv.env, inv.call).Success?
    ensures var s' := Next(d, s, inv);
            inv.call.intentId in s'.intents && SameTerms(inv.call.record, s'.intents[inv.call.intentId])
    ensures {inv.call.partyA, inv.call.partyB} <= inv.env.auth
  {
  }
}
