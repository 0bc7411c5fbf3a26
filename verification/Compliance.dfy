/** The compliance gates over whole runs of the contract, for every verifier: which roots, which auditor
    key and which signatures an accepted call came with. */
module Compliance {
  import opened Wrappers
  import opened Hashing
  import opened RootWindows
  import opened ContractTypes
  import opened ContractSpec
  import opened ContractRuns

  function Windowed(s: State, kind: RootKind): WindowedRoot {
    match kind
    case Kyc => s.config.kyc
    case Sanction => s.config.sanction
    case Assets => s.config.assets
  }

  /** The root a call publishes for one kind. */
  function Published(call: Call, kind: RootKind): seq<Fr> {
    match call
    case DoInit(cfg) =>
      [match kind case Kyc => cfg.kycRoot case Sanction => cfg.sanctionRoot case Assets => cfg.assetsRoot]
    case DoUpdateRoot(k, root) => if k == kind then [root] else []
    case _ => []
  }

  /** A rejected call publishes nothing. */
  function PublishedBy(d: Deployment, s: State, inv: Invocation, kind: RootKind): (r: seq<Fr>)
    ensures |r| <= 1
  {
    if Exec(d, s, inv.env, inv.call).Success? then Published(inv.call, kind) else []
  }

  function PublishedIn(d: Deployment, s: State, trace: seq<Invocation>, kind: RootKind): seq<Fr> {
    if |trace| == 0 then []
    else
      var n := |trace| - 1;
      PublishedIn(d, s, trace[..n], kind) + PublishedBy(d, After(d, s, trace[..n]), trace[n], kind)
  }

  lemma CallOnWindow(d: Deployment, s: State, inv: Invocation, kind: RootKind)
    ensures var w, w' := Windowed(s, kind), Windowed(Next(d, s, inv), kind);
            var more := PublishedBy(d, s, inv, kind);
            if |more| == 0 then w' == w else w' == Push(w, more[0])
  {
  }

  lemma PublishingOneMore(published: seq<Fr>, more: seq<Fr>)
    requires |more| <= 1
    ensures PushAllCompliance([], published + more) ==
            if |more| == 0 then PushAllCompliance([], published)
            else PushCompliance(PushAllCompliance([], published), more[0])
  {
    if |more| == 0 {
      assert published + more == published;
    } else {
      assert (published + more)[..|published|] == published;
    }
  }

  ghost predicate FollowsLog(w: WindowedRoot, published: seq<Fr>) {
    && w.window == PushAllCompliance([], published)
    && (|published| > 0 ==> w.current == published[|published| - 1])
  }

  lemma CallFollowsLog(d: Deployment, s: State, inv: Invocation, kind: RootKind, published: seq<Fr>)
    requires FollowsLog(Windowed(s, kind), published)
    ensures FollowsLog(Windowed(Next(d, s, inv), kind), published + PublishedBy(d, s, inv, kind))
  {
    CallOnWindow(d, s, inv, kind);
    PublishingOneMore(published, PublishedBy(d, s, inv, kind));
  }

  lemma {:induction false} RunFollowsLog(d: Deployment, s: State, trace: seq<Invocation>, kind: RootKind)
    requires FollowsLog(Windowed(s, kind), [])
    ensures FollowsLog(Windowed(After(d, s, trace), kind), PublishedIn(d, s, trace, kind))
    decreases |trace|
  {
    if |trace| > 0 {
      var n := |trace| - 1;
      RunFollowsLog(d, s, trace[..n], kind);
      CallFollowsLog(d, After(d, s, trace[..n]), trace[n], kind, PublishedIn(d, s, trace[..n], kind));
    }
  }

  /** What a window looks like that has followed a log of published roots. */
  lemma LogDeterminesWindow(w: WindowedRoot, published: seq<Fr>)
    requires FollowsLog(w, published)
    ensures w.window == LastN(Admitted(published), COMPLIANCE_WINDOW_CAPACITY) && WindowOk(w.window)
    ensures |published| > 0 ==> w.current == published[|published| - 1] && w.current in w.window
  {
    ComplianceWindowIsSuffix(published);
    PushAllKeepsWindow(published);
  }

  /** After every run from empty windows each compliance window is the last 16 admitted roots of its kind,
      without duplicates, and holds the current root once there is one. */
  lemma WindowIsLastAdmitted(d: Deployment, s: State, trace: seq<Invocation>, kind: RootKind)
    requires Windowed(s, kind).window == []
    ensures var w := Windowed(After(d, s, trace), kind);
            var published := PublishedIn(d, s, trace, kind);
            && w.window == LastN(Admitted(published), COMPLIANCE_WINDOW_CAPACITY)
            && WindowOk(w.window)
            && (|published| > 0 ==> w.current == published[|published| - 1] && w.current in w.window)
  {
    RunFollowsLog(d, s, trace, kind);
    LogDeterminesWindow(Windowed(After(d, s, trace), kind), PublishedIn(d, s, trace, kind));
  }

  /** From blank storage on: init publishes the first root of each kind. */
  lemma WindowFromBlank(d: Deployment, trace: seq<Invocation>, kind: RootKind)
    ensures var w := Windowed(After(d, Blank(), trace), kind);
            var published := PublishedIn(d, Blank(), trace, kind);
            && w.window == LastN(Admitted(published), COMPLIANCE_WINDOW_CAPACITY)
            && WindowOk(w.window)
            && (|published| > 0 ==> w.current == published[|published| - 1] && w.current in w.window)
  {
    WindowIsLastAdmitted(d, Blank(), trace, kind);
  }

  // ----- what an accepted call came with -----

  /** The root of each kind that a call was proved against. */
  function ProvedAgainst(call: Call, kind: RootKind): Option<Fr> {
    match call
    case DoShield(_, _, pi) => MintRoot(pi, kind)
    case DoMintRecovery(_, pi) => MintRoot(pi, kind)
    case DoTransfer(_, pi) => Some(RootOf(pi.roots, kind))
    case DoSettleDvp(_, _, _, pi) => Some(RootOf(pi.roots, kind))
    case DoUnshield(_, pi) => Some(RootOf(pi.roots, kind))
    case DoEscrowDeposit(_, _, _, pi) => if kind == Assets then Some(pi.roots.assets) else None
    case DoSettleIntent(_, _, pi) => Some(RootOf(pi.roots, kind))
    case DoEscrowRefund(_, _, _, pi) => Some(RootOf(pi.roots, kind))
    case _ => None
  }

  function RootOf(roots: ComplianceRoots, kind: RootKind): Fr {
    match kind
    case Kyc => roots.kyc
    case Sanction => roots.sanction
    case Assets => roots.assets
  }

  /** A mint has no sanctions input. */
  function MintRoot(pi: ShieldInputs, kind: RootKind): Option<Fr> {
    match kind
    case Kyc => Some(pi.kycRoot)
    case Sanction => None
    case Assets => Some(pi.assetsRoot)
  }

  function AuditorOf(call: Call): Option<Fr> {
    match call
    case DoShield(_, _, pi) => Some(pi.auditorPk)
    case DoMintRecovery(_, pi) => Some(pi.auditorPk)
    case DoTransfer(_, pi) => Some(pi.roots.auditorPk)
    case DoSettleDvp(_, _, _, pi) => Some(pi.roots.auditorPk)
    case DoUnshield(_, pi) => Some(pi.roots.auditorPk)
    case DoEscrowDeposit(_, _, _, pi) => Some(pi.roots.auditorPk)
    case DoSettleIntent(_, _, pi) => Some(pi.roots.auditorPk)
    case DoEscrowRefund(_, _, _, pi) => Some(pi.roots.auditorPk)
    case _ => None
  }

  /** Who must have signed; a transfer, an unshield and a settlement need nobody. */
  function Signers(s: State, call: Call): set<Address> {
    match call
    case DoInit(cfg) => {cfg.admin}
    case DoShield(depositor, _, _) => {depositor}
    case DoSettleDvp(a, b, _, _) => {a, b}
    case DoCreateIntent(a, b, _, _) => {a, b}
    case DoEscrowDeposit(depositor, _, _, _) => {depositor}
    case DoEscrowRefund(refunder, _, _, _) => {refunder}
    case DoTransfer(_, _) => {}
    case DoUnshield(_, _) => {}
    case DoSettleIntent(_, _, _) => {}
    case _ => {s.config.issuer}
  }

  lemma AcceptedIsGated(d: Deployment, s: State, env: Env, call: Call, kind: RootKind)
    requires Exec(d, s, env, call).Success?
    ensures ProvedAgainst(call, kind).Some? ==> ProvedAgainst(call, kind).value in Windowed(s, kind).window
    ensures AuditorOf(call).Some? ==> AuditorOf(call).value == s.config.auditorPk
    ensures Signers(s, call) <= env.auth
  {
  }

  predicate NeedsIssuer(call: Call) {
    call.DoUpdateRoot? || call.DoRegisterAsset? || call.DoRegisterTransparent? || call.DoFreeze? || call.DoMintRecovery?
  }

  lemma OpenCallsKeepSettings(d: Deployment, s: State, env: Env, call: Call, s': State)
    requires s.config.initialized && !NeedsIssuer(call) && Exec(d, s, env, call) == Success(s')
    ensures s'.config == s.config && s'.registry == s.registry && s'.frozen == s.frozen
  {
  }

  lemma IssuerCallsAreSigned(d: Deployment, s: State, env: Env, call: Call, s': State)
    requires NeedsIssuer(call) && Exec(d, s, env, call) == Success(s')
    ensures s.config.issuer in env.auth && s'.config.initialized
    ensures SameAuthorities(s.config, s'.config)
  {
  }

  /** The keys that init fixes for good. */
  predicate SameAuthorities(a: Config, b: Config) {
    a.admin == b.admin && a.issuer == b.issuer && a.auditorPk == b.auditorPk
  }

  /** After init nobody but the issuer can change a root, a registry or the frozen set; admin, issuer and
      auditor key never change. */
  lemma AuthoritiesAreFixed(d: Deployment, s: State, inv: Invocation)
    requires s.config.initialized
    ensures var s' := Next(d, s, inv);
            && s'.config.initialized && SameAuthorities(s.config, s'.config)
            && (s.config.issuer !in inv.env.auth ==>
                  s'.config == s.config && s'.registry == s.registry && s'.frozen == s.frozen)
  {
    if Exec(d, s, inv.env, inv.call).Success? {
      if NeedsIssuer(inv.call) {
        IssuerCallsAreSigned(d, s, inv.env, inv.call, Next(d, s, inv));
      } else {
        OpenCallsKeepSettings(d, s, inv.env, inv.call, Next(d, s, inv));
      }
    }
  }

  lemma {:induction false} RunKeepsAuthorities(d: Deployment, s: State, trace: seq<Invocation>)
    requires s.config.initialized
    ensures var s' := After(d, s, trace);
            && s'.config.initialized && SameAuthorities(s.config, s'.config)
            && ((forall i :: 0 <= i < |trace| ==> s.config.issuer !in trace[i].env.auth) ==>
                  s'.config == s.config && s'.registry == s.registry && s'.frozen == s.frozen)
    decreases |trace|
  {
    if |trace| > 0 {
      var n := |trace| - 1;
      RunKeepsAuthorities(d, s, trace[..n]);
      AuthoritiesAreFixed(d, After(d, s, trace[..n]), trace[n]);
    }
  }

  /** Over every run: an accepted call was proved against one of the last 16 admitted roots of each kind
      it names and signed by everyone it names. */
  lemma AcceptedUnderRecentRoots(d: Deployment, s: State, trace: seq<Invocation>, i: nat, kind: RootKind)
    requires Windowed(s, kind).window == [] && i < |trace| && AcceptedAt(d, s, trace, i)
    ensures var call := trace[i].call;
            ProvedAgainst(call, kind).Some? ==>
              ProvedAgainst(call, kind).value
              in LastN(Admitted(PublishedIn(d, s, trace[..i], kind)), COMPLIANCE_WINDOW_CAPACITY)
    ensures Signers(After(d, s, trace[..i]), trace[i].call) <= trace[i].env.auth
  {
    AcceptedIsGated(d, After(d, s, trace[..i]), trace[i].env, trace[i].call, kind);
    WindowIsLastAdmitted(d, s, trace[..i], kind);
  }

  /** The same for every run of a deployed contract. */
  lemma AcceptedFromBlank(d: Deployment, trace: seq<Invocation>, i: nat, kind: RootKind)
    requires i < |trace| && AcceptedAt(d, Blank(), trace, i)
    ensures var call := trace[i].call;
            ProvedAgainst(call, kind).Some? ==>
              ProvedAgainst(call, kind).value
              in LastN(Admitted(PublishedIn(d, Blank(), trace[..i], kind)), COMPLIANCE_WINDOW_CAPACITY)
    ensures Signers(After(d, Blank(), trace[..i]), trace[i].call) <= trace[i].env.auth
  {
    AcceptedUnderRecentRoots(d, Blank(), trace, i, kind);
  }

  /** Once the contract is initialised the auditor key is settled: every later accepted call that names one
      names that key. */
  lemma AcceptedUnderOneAuditor(d: Deployment, s: State, trace: seq<Invocation>, k: nat, i: nat)
    requires k <= i < |trace| && AcceptedAt(d, s, trace, i)
    requires After(d, s, trace[..k]).config.initialized && AuditorOf(trace[i].call).Some?
    ensures AuditorOf(trace[i].call).value == After(d, s, trace[..k]).config.auditorPk
  {
    assert trace[..i][..k] == trace[..k];
    AfterSplits(d, s, trace[..i], k);
    RunKeepsAuthorities(d, After(d, s, trace[..k]), trace[..i][k..]);
    AcceptedIsGated(d, After(d, s, trace[..i]), trace[i].env, trace[i].call, Kyc);
  }
}
