/** Sender, receiver and application state as objects over one orchestrator, proved against the ECU model. */
module EcuObjects {
  import opened Bytes
  import opened SecurityProfile
  import opened Policy
  import opened CanBus
  import opened SecOCModel
  import opened SecOC
  import opened EcuModel

  class ReceiverEcu {
    const secoc: Orchestrator
    const managed: seq<string>
    var accepted: map<string, nat>
    var rejected: map<string, nat>
    var handlers: set<string>
    /** The handler calls made so far, in order. */
    var delivered: seq<(string, Bytes)>

    function View(): Receiver
      reads this
    {
      Receiver(managed, accepted, rejected, handlers, delivered)
    }

    constructor (secoc: Orchestrator, managed: seq<string>)
      ensures this.secoc == secoc
      ensures View() == Receiver(managed, map p | p in managed :: 0, map p | p in managed :: 0, {}, [])
    {
      this.secoc := secoc;
      this.managed := managed;
      accepted := map p | p in managed :: 0;
      rejected := map p | p in managed :: 0;
      handlers := {};
      delivered := [];
    }

    method RegisterSignalHandler(p: string) returns (ok: bool)
      modifies this`handlers
      ensures ok <==> p in managed
      ensures handlers == if ok then old(handlers) + {p} else old(handlers)
    {
      ok := p in managed;
      if ok {
        handlers := handlers + {p};
      }
    }

    method SettleFrame(p: string, received: Received) returns (r: FrameResult)
      modifies this
      ensures (View(), r) == Settle(old(View()), p, received)
    {
      match received
      case Accepted(payload) =>
        accepted := accepted[p := (if p in accepted then accepted[p] else 0) + 1];
        if p in handlers {
          delivered := delivered + [(p, payload)];
        }
        r := Taken;
      case Rejected(_) =>
        rejected := rejected[p := (if p in rejected then rejected[p] else 0) + 1];
        r := Dropped;
      case Raised(fault) =>
        r := Escaped(fault);
    }

    method OnFrameReceived(p: string, frame: Bytes, material: Bytes) returns (r: FrameResult)
      requires secoc.Wired()
      modifies this, secoc.freshness.nvm, secoc.authenticator.hsm`keys, secoc.faults, secoc.policy, secoc.ecu
      modifies secoc.dem, secoc.bus
      ensures (secoc.View(), View(), r)
           == OnFrame(secoc.Cfg(), old(secoc.View()), old(View()), p, frame, material)
    {
      if p !in managed {
        return Dropped;
      }
      if secoc.ecu.current != NormalOperation {
        rejected := rejected[p := (if p in rejected then rejected[p] else 0) + 1];
        return Dropped;
      }
      var received := secoc.ReceiveSecured(p, frame, CanFd, material);
      r := SettleFrame(p, received);
    }
  }

  class SenderEcu {
    const secoc: Orchestrator
    const router: PduRouter
    const managed: seq<string>
    var txCount: map<string, nat>

    function View(): Sender
      reads this
    {
      Sender(managed, txCount)
    }

    constructor (secoc: Orchestrator, router: PduRouter, managed: seq<string>)
      ensures this.secoc == secoc && this.router == router
      ensures View() == Sender(managed, map p | p in managed :: 0)
    {
      this.secoc := secoc;
      this.router := router;
      this.managed := managed;
      txCount := map p | p in managed :: 0;
    }

    method Send(p: string, payload: Bytes, material: Bytes, slow: bool) returns (r: SendResult)
      requires secoc.Wired() && router.Valid() && router.canIf.bus == secoc.bus
      modifies this, secoc.authenticator`opSeq, secoc.authenticator.hsm`keys, secoc.dem, secoc.bus
      ensures (secoc.View(), View(), r)
           == SendSignal(secoc.Cfg(), old(secoc.View()), old(View()), p, payload, material, slow,
                         router.canFdIf != null)
    {
      if p !in managed {
        return Unmanaged;
      }
      if secoc.ecu.current != NormalOperation {
        return Suppressed;
      }
      var sent := secoc.TransmitSecured(p, payload, CanFd, material, slow);
      r := DispatchFrame(p, sent);
    }

    method DispatchFrame(p: string, sent: Transmitted) returns (r: SendResult)
      requires router.Valid() && router.canIf.bus == secoc.bus
      modifies this, secoc.bus
      ensures (secoc.bus.View(), View(), r)
           == Dispatch(old(secoc.bus.View()), old(View()), p, sent, router.canFdIf != null)
    {
      if sent.Failed? {
        return SendFailed(sent.fault);
      }
      var routed := router.RouteToBus(p, sent.frame);
      if !routed {
        return TooLarge;
      }
      txCount := txCount[p := (if p in txCount then txCount[p] else 0) + 1];
      r := OnBus;
    }
  }

  class AppState {
    const secoc: Orchestrator
    var broadcastIndex: nat

    constructor (secoc: Orchestrator)
      ensures this.secoc == secoc && broadcastIndex == 0
    {
      this.secoc := secoc;
      broadcastIndex := 0;
    }

    method ResetEcuState()
      requires secoc.Wired()
      modifies secoc.ecu, secoc.policy, secoc.faults, secoc.dem
      ensures secoc.View() == old(secoc.View()).(guard := ResetEcu(old(secoc.View()).guard))
    {
      secoc.ecu.Transition(NormalOperation);
      secoc.policy.lockedOut := false;
      secoc.faults.counts := map[];
      secoc.dem.Log(Logged(Info, ECU_RESET, "SecOC-RESET"));
    }

    /** The events since the last call; together with what was returned before, the whole history. */
    method NewDemEvents() returns (batch: seq<DemEvent>)
      modifies this`broadcastIndex
      ensures broadcastIndex == |secoc.dem.events|
      ensures if old(broadcastIndex) <= |secoc.dem.events|
              then secoc.dem.events[..old(broadcastIndex)] + batch == secoc.dem.events
              else batch == []
    {
      var events := secoc.dem.events;
      batch := if broadcastIndex <= |events| then events[broadcastIndex..] else [];
      broadcastIndex := |events|;
    }
  }
}
