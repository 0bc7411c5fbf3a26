/** What the contract publishes (contracts/finnes/src/events.rs) and what can be read back from it. */
module EventLog {
  import opened Wrappers
  import opened Hashing
  import opened ContractTypes
  import opened ContractSpec

  /** The one event of an accepted call; init publishes none. */
  function EventOf(call: Call): seq<Event> {
    match call
    case DoInit(_) => []
    case DoShield(_, _, pi) => [ShieldEvent(pi.assetId, pi.amount, pi.cmOut, pi.tree.newRoot)]
    case DoTransfer(_, pi) => [TransferEvent(pi.nfIn0, pi.nfIn1, pi.cmOut0, pi.cmOut1, pi.tree.newRoot)]
    case DoSettleDvp(_, _, _, pi) => [DvpEvent(pi.nfLegX, pi.nfLegY, pi.cmOutX, pi.cmOutY, pi.tree.newRoot)]
    case DoUnshield(_, pi) =>
      [UnshieldEvent(pi.nfIn, pi.assetId, pi.amount, pi.recipient, pi.cmChange, pi.tree.newRoot)]
    case DoUpdateRoot(kind, root) => [RootUpdatedEvent(kind, root)]
    case DoRegisterAsset(assetId, sac) => [AssetRegisteredEvent(assetId, sac)]
    case DoRegisterTransparent(recipient, addr) => [TransparentRegisteredEvent(recipient, addr)]
    case DoFreeze(cm, root) => [FreezeEvent(cm, root)]
    case DoMintRecovery(_, pi) => [RecoveryEvent(pi.cmOut, pi.tree.newRoot)]
    case DoCreateIntent(_, _, id, record) => [IntentCreatedEvent(id, record.deadline)]
    case DoEscrowDeposit(_, id, _, pi) => [EscrowDepositedEvent(id, pi.nfIn, pi.cmOut, pi.tree.newRoot)]
    case DoSettleIntent(id, _, pi) =>
      [IntentSettledEvent(id, pi.nfLegX, pi.nfLegY, pi.cmOutX, pi.cmOutY, pi.tree.newRoot)]
    case DoEscrowRefund(_, id, _, pi) => [EscrowRefundedEvent(id, pi.nfIn, pi.cmOut, pi.tree.newRoot)]
  }

  lemma AcceptedEmits(d: Deployment, s: State, env: Env, call: Call, s': State)
    requires Exec(d, s, env, call) == Success(s')
    ensures s'.events == s.events + EventOf(call)
  {
  }

  /** The freeze targets of a log, in order. */
  function FreezeLog(events: seq<Event>): seq<Fr> {
    if |events| == 0 then []
    else
      var last := events[|events| - 1];
      FreezeLog(events[..|events| - 1]) + if last.FreezeEvent? then [last.cmTarget] else []
  }

  lemma FreezeLogOne(events: seq<Event>, e: Event)
    ensures FreezeLog(events + [e]) == FreezeLog(events) + if e.FreezeEvent? then [e.cmTarget] else []
  {
    assert (events + [e])[..|events|] == events;
  }

  lemma EventsOfCall(call: Call)
    ensures |EventOf(call)| <= 1 && (|EventOf(call)| == 0 <==> call.DoInit?)
    ensures !call.DoInit? ==> EventOf(call)[0].FreezeEvent? == call.DoFreeze?
    ensures call.DoFreeze? ==> EventOf(call) == [FreezeEvent(call.cmTarget, call.newFrozenRoot)]
  {
  }

  lemma FreezeLogAppends(events: seq<Event>, call: Call)
    ensures FreezeLog(events + EventOf(call)) == FreezeLog(events) + if call.DoFreeze? then [call.cmTarget] else []
  {
    EventsOfCall(call);
    var more := EventOf(call);
    if |more| == 0 {
      assert events + more == events;
    } else {
      assert more == [more[0]];
      FreezeLogOne(events, more[0]);
    }
  }
}
