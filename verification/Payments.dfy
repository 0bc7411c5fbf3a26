/** Which account is paid and through which token (contracts/finnes/src/sac.rs), over whole runs of the contract
    and for every verifier: the event log determines the registries and, with them, every token movement. */
module Payments {
  import opened Wrappers
  import opened Hashing
  import opened ContractTypes
  import opened ContractSpec
  import opened ContractRuns
  import opened EventLog
  import opened Conservation

  // ----- the registries -----

  /** The token contract last registered for an asset. */
  function LastSac(events: seq<Event>, assetId: Fr): Option<Address> {
    if |events| == 0 then None
    else
      var last := events[|events| - 1];
      if last.AssetRegisteredEvent? && last.assetId == assetId then Some(last.sac)
      else LastSac(events[..|events| - 1], assetId)
  }

  /** The account last registered for a recipient. */
  function LastPayee(events: seq<Event>, recipient: Fr): Option<Address> {
    if |events| == 0 then None
    else
      var last := events[|events| - 1];
      if last.TransparentRegisteredEvent? && last.recipient == recipient then Some(last.addr)
      else LastPayee(events[..|events| - 1], recipient)
  }

  function Lookup(m: map<Fr, Address>, key: Fr): Option<Address> {
    if key in m then Some(m[key]) else None
  }

  /** The stored registries are the log's. */
  ghost predicate RegistryFollows(s: State) {
    && (forall a :: Lookup(s.registry.sacs, a) == LastSac(s.events, a))
    && (forall r :: Lookup(s.registry.recipients, r) == LastPayee(s.events, r))
  }

  lemma LastOfMore(events: seq<Event>, e: Event, key: Fr)
    ensures LastSac(events + [e], key) ==
            if e.AssetRegisteredEvent? && e.assetId == key then Some(e.sac) else LastSac(events, key)
    ensures LastPayee(events + [e], key) ==
            if e.TransparentRegisteredEvent? && e.recipient == key then Some(e.addr) else LastPayee(events, key)
  {
    assert (events + [e])[..|events|] == events;
  }

  lemma RegistryOf(d: Deployment, s: State, env: Env, call: Call, s': State)
    requires Exec(d, s, env, call) == Success(s')
    ensures match call
            case DoRegisterAsset(a, sac) =>
              s'.registry.sacs == s.registry.sacs[a := sac] && s'.registry.recipients == s.registry.recipients
            case DoRegisterTransparent(r, addr) =>
              s'.registry.recipients == s.registry.recipients[r := addr] && s'.registry.sacs == s.registry.sacs
            case _ => s'.registry == s.registry
  {
  }

  lemma EventOnRegistry(events: seq<Event>, call: Call, key: Fr)
    ensures LastSac(events + EventOf(call), key) ==
            if call.DoRegisterAsset? && call.assetId == key then Some(call.sac) else LastSac(events, key)
    ensures LastPayee(events + EventOf(call), key) ==
            if call.DoRegisterTransparent? && call.recipient == key then Some(call.addr) else LastPayee(events, key)
  {
    if call.DoInit? {
      assert events + EventOf(call) == events;
    } else {
      assert EventOf(call) == [EventOf(call)[0]];
      LastOfMore(events, EventOf(call)[0], key);
    }
  }

  lemma CallKeepsRegistry(d: Deployment, s: State, env: Env, call: Call, s': State)
    requires RegistryFollows(s) && Exec(d, s, env, call) == Success(s')
    ensures RegistryFollows(s')
  {
    AcceptedEmits(d, s, env, call, s');
    RegistryOf(d, s, env, call, s');
    forall key
      ensures Lookup(s'.registry.sacs, key) == LastSac(s'.events, key)
      ensures Lookup(s'.registry.recipients, key) == LastPayee(s'.events, key)
    {
      EventOnRegistry(s.events, call, key);
    }
  }

  // ----- the movements -----

  /** Every shield event is one deposit and every unshield event one payment, in order, through the token and to
      the account that the log had registered by then; no other event moves tokens. */
  ghost predicate Ordered(moves: seq<TokenMove>, events: seq<Event>)
    decreases |events|
  {
    if |events| == 0 then moves == []
    else
      var earlier := events[..|events| - 1];
      match events[|events| - 1]
      case ShieldEvent(assetId, amount, _, _) =>
        exists from ::
          && LastSac(earlier, assetId).Some?
          && EndsIn(moves, PullDeposit(assetId, LastSac(earlier, assetId).value, from, amount))
          && Ordered(moves[..|moves| - 1], earlier)
      case UnshieldEvent(_, assetId, amount, recipient, _, _) =>
        && LastSac(earlier, assetId).Some? && LastPayee(earlier, recipient).Some?
        && EndsIn(moves, PayOut(assetId, LastSac(earlier, assetId).value, LastPayee(earlier, recipient).value, amount))
        && Ordered(moves[..|moves| - 1], earlier)
      case _ => Ordered(moves, earlier)
  }

  predicate EndsIn(moves: seq<TokenMove>, move: TokenMove) {
    |moves| > 0 && moves[|moves| - 1] == move
  }

  /** One accepted unshield is exactly one payment: of its amount, through the token last registered for its
      asset, to the account last registered for its recipient. */
  lemma UnshieldPays(d: Deployment, s: State, env: Env, proof: Proof, pi: UnshieldInputs, s': State)
    requires RegistryFollows(s) && Exec(d, s, env, DoUnshield(proof, pi)) == Success(s')
    ensures LastSac(s.events, pi.assetId).Some? && LastPayee(s.events, pi.recipient).Some?
    ensures s'.moves == s.moves + [PayOut(pi.assetId, LastSac(s.events, pi.assetId).value,
                                          LastPayee(s.events, pi.recipient).value, pi.amount)]
  {
    TokenLogOf(d, s, env, DoUnshield(proof, pi), s');
    assert Lookup(s.registry.sacs, pi.assetId) == LastSac(s.events, pi.assetId);
    assert Lookup(s.registry.recipients, pi.recipient) == LastPayee(s.events, pi.recipient);
  }

  /** One accepted shield is exactly one deposit, from the depositor who signed. */
  lemma ShieldPulls(d: Deployment, s: State, env: Env, who: Address, proof: Proof, pi: ShieldInputs, s': State)
    requires RegistryFollows(s) && Exec(d, s, env, DoShield(who, proof, pi)) == Success(s')
    ensures LastSac(s.events, pi.assetId).Some? && who in env.auth
    ensures s'.moves == s.moves + [PullDeposit(pi.assetId, LastSac(s.events, pi.assetId).value, who, pi.amount)]
  {
    TokenLogOf(d, s, env, DoShield(who, proof, pi), s');
    assert Lookup(s.registry.sacs, pi.assetId) == LastSac(s.events, pi.assetId);
  }

  lemma CallKeepsOrdered(d: Deployment, s: State, env: Env, call: Call, s': State)
    requires RegistryFollows(s) && Ordered(s.moves, s.events) && Exec(d, s, env, call) == Success(s')
    ensures Ordered(s'.moves, s'.events)
  {
    AcceptedEmits(d, s, env, call, s');
    TokenLogOf(d, s, env, call, s');
    if call.DoInit? {
      assert s'.events == s.events;
    } else {
      assert EventOf(call) == [EventOf(call)[0]];
      assert s'.events[..|s'.events| - 1] == s.events && s'.events[|s'.events| - 1] == EventOf(call)[0];
      if call.DoShield? {
        ShieldPulls(d, s, env, call.depositor, call.proof, call.shield, s');
        assert s'.moves[..|s'.moves| - 1] == s.moves;
      } else if call.DoUnshield? {
        UnshieldPays(d, s, env, call.proof, call.unshield, s');
        assert s'.moves[..|s'.moves| - 1] == s.moves;
      }
    }
  }

  /** After every run from blank storage the log determines both registries and every token movement. */
  lemma {:induction false} RunFollowsOrders(d: Deployment, trace: seq<Invocation>)
    ensures var s := After(d, Blank(), trace); RegistryFollows(s) && Ordered(s.moves, s.events)
    decreases |trace|
  {
    if |trace| > 0 {
      var n := |trace| - 1;
      var s := After(d, Blank(), trace[..n]);
      RunFollowsOrders(d, trace[..n]);
      if Exec(d, s, trace[n].env, trace[n].call).Success? {
        CallKeepsRegistry(d, s, trace[n].env, trace[n].call, Next(d, s, trace[n]));
        CallKeepsOrdered(d, s, trace[n].env, trace[n].call, Next(d, s, trace[n]));
      }
    }
  }

  /** Over every run: an accepted unshield pays whoever the log named last for its recipient. */
  lemma AcceptedUnshieldPays(d: Deployment, trace: seq<Invocation>, i: nat)
    requires i < |trace| && AcceptedAt(d, Blank(), trace, i) && trace[i].call.DoUnshield?
    ensures var s, s' := After(d, Blank(), trace[..i]), After(d, Blank(), trace[..i + 1]);
            var pi := trace[i].call.unshield;
            && LastSac(s.events, pi.assetId).Some? && LastPayee(s.events, pi.recipient).Some?
            && s'.moves == s.moves + [PayOut(pi.assetId, LastSac(s.events, pi.assetId).value,
                                             LastPayee(s.events, pi.recipient).value, pi.amount)]
  {
    var s := After(d, Blank(), trace[..i]);
    RunFollowsOrders(d, trace[..i]);
    AfterStep(d, Blank(), trace, i);
    UnshieldPays(d, s, trace[i].env, trace[i].call.proof, trace[i].call.unshield, Next(d, s, trace[i]));
  }
}
