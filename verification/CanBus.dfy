/** The shared bus, its size-limited interfaces, and the router's choice between them. */
module CanBus {
  import opened Bytes
  import opened Wrappers

  const CAN_MAX_PAYLOAD := 8
  const CAN_FD_MAX_PAYLOAD := 64

  datatype Bus = Bus(queue: seq<(string, Bytes)>, last: map<string, Bytes>)

  const EMPTY_BUS := Bus([], map[])

  function Publish(b: Bus, pduId: string, data: Bytes): Bus {
    Bus(b.queue + [(pduId, data)], b.last[pduId := data])
  }

  /** The most recently published frame of the PDU, whatever has been consumed. */
  function Latest(b: Bus, pduId: string): Option<Bytes> {
    if pduId in b.last then Some(b.last[pduId]) else None
  }

  class SharedBus {
    var queue: seq<(string, Bytes)>
    var last: map<string, Bytes>

    constructor ()
      ensures View() == EMPTY_BUS
    {
      queue := [];
      last := map[];
    }

    function View(): Bus
      reads this
    {
      Bus(queue, last)
    }

    method PublishFrame(pduId: string, data: Bytes)
      modifies this
      ensures View() == Publish(old(View()), pduId, data)
    {
      last := last[pduId := data];
      queue := queue + [(pduId, data)];
    }

    function GetLast(pduId: string): (frame: Option<Bytes>)
      reads this
      ensures frame == Latest(View(), pduId)
    {
      if pduId in last then Some(last[pduId]) else None
    }

    method Consume() returns (frame: Option<(string, Bytes)>)
      modifies this`queue
      ensures old(queue) == [] ==> frame == None && queue == []
      ensures old(queue) != [] ==> frame.Some? && old(queue) == [frame.value] + queue
    {
      if queue == [] {
        return None;
      }
      frame := Some(queue[0]);
      queue := queue[1..];
    }
  }

  /** route_to_bus on values; None where it raises PayloadTooLargeError. */
  function Route(b: Bus, hasFd: bool, pduId: string, frame: Bytes): Option<Bus> {
    if |frame| <= CAN_MAX_PAYLOAD || (hasFd && |frame| <= CAN_FD_MAX_PAYLOAD)
    then Some(Publish(b, pduId, frame)) else None
  }

  /** A frame goes out exactly if 8 bytes hold it, or 64 with CAN FD; then it is published, once. */
  lemma RouteIff(b: Bus, hasFd: bool, pduId: string, frame: Bytes)
    ensures Route(b, hasFd, pduId, frame).Some? <==> |frame| <= 8 || (hasFd && |frame| <= 64)
    ensures Route(b, hasFd, pduId, frame).Some? ==> Route(b, hasFd, pduId, frame).value == Publish(b, pduId, frame)
  {}

  class CanInterface {
    const bus: SharedBus
    const maxPayload: nat

    constructor (bus: SharedBus, maxPayload: nat)
      ensures this.bus == bus && this.maxPayload == maxPayload
    {
      this.bus := bus;
      this.maxPayload := maxPayload;
    }

    method SendFrame(pduId: string, data: Bytes) returns (ok: bool)
      modifies bus
      ensures ok <==> |data| <= maxPayload
      ensures bus.View() == if ok then Publish(old(bus.View()), pduId, data) else old(bus.View())
    {
      ok := |data| <= maxPayload;
      if ok {
        bus.PublishFrame(pduId, data);
      }
    }
  }

  class PduRouter {
    const canIf: CanInterface
    const canFdIf: CanInterface?

    /** Both interfaces sit on one bus with the limits of their transport. */
    ghost predicate Valid() {
      && canIf.maxPayload == CAN_MAX_PAYLOAD
      && (canFdIf != null ==> canFdIf.maxPayload == CAN_FD_MAX_PAYLOAD && canFdIf.bus == canIf.bus)
    }

    constructor (canIf: CanInterface, canFdIf: CanInterface?)
      ensures this.canIf == canIf && this.canFdIf == canFdIf
    {
      this.canIf := canIf;
      this.canFdIf := canFdIf;
    }

    method RouteToBus(pduId: string, frame: Bytes) returns (ok: bool)
      requires Valid()
      modifies canIf.bus
      ensures ok <==> Route(old(canIf.bus.View()), canFdIf != null, pduId, frame).Some?
      ensures canIf.bus.View() == if ok then Route(old(canIf.bus.View()), canFdIf != null, pduId, frame).value
                                  else old(canIf.bus.View())
    {
      var size := |frame|;
      if size <= CAN_MAX_PAYLOAD {
        ok := canIf.SendFrame(pduId, frame);
        return;
      }
      if canFdIf != null && size <= CAN_FD_MAX_PAYLOAD {
        ok := canFdIf.SendFrame(pduId, frame);
        return;
      }
      ok := false;
    }
  }
}
