/** Sender and receiver ECUs on values: the state gate, the counters and what the application sees. */
module EcuModel {
  import opened Bytes
  import opened SecurityProfile
  import opened Policy
  import opened CanBus
  import opened SecOCModel

  datatype Receiver = Receiver(
    managed: seq<string>, accepted: map<string, nat>, rejected: map<string, nat>,
    handlers: set<string>, delivered: seq<(string, Bytes)>)

  /** Escaped: an exception of receive_secured passed through, past both counters. */
  datatype FrameResult = Taken | Dropped | Escaped(fault: Fault)

  function Count(m: map<string, nat>, p: string): nat {
    if p in m then m[p] else 0
  }

  function Bump(m: map<string, nat>, p: string): map<string, nat> {
    m[p := Count(m, p) + 1]
  }

  /** What the receiver does with the verdict of receive_secured: one counter, and the handler on success. */
  function Settle(rx: Receiver, p: string, r: Received): (Receiver, FrameResult) {
    match r
    case Accepted(payload) =>
      (rx.(accepted := Bump(rx.accepted, p),
           delivered := if p in rx.handlers then rx.delivered + [(p, payload)] else rx.delivered), Taken)
    case Rejected(_) => (rx.(rejected := Bump(rx.rejected, p)), Dropped)
    case Raised(fault) => (rx, Escaped(fault))
  }

  function OnFrame(c: Config, s: State, rx: Receiver, p: string, frame: Bytes, material: Bytes):
    (State, Receiver, FrameResult)
  {
    if p !in rx.managed then (s, rx, Dropped)
    else if s.guard.ecu != NormalOperation then (s, rx.(rejected := Bump(rx.rejected, p)), Dropped)
    else
      var (s', r) := Receive(c, s, p, frame, CanFd, material);
      var (rx', result) := Settle(rx, p, r);
      (s', rx', result)
  }

  datatype Sender = Sender(managed: seq<string>, txCount: map<string, nat>)

  datatype SendResult = OnBus | Suppressed | Unmanaged | TooLarge | SendFailed(fault: Fault)

  /** What the sender does with the built frame: route it, and count it once it is on the bus. */
  function Dispatch(bus: Bus, tx: Sender, p: string, sent: Transmitted, hasFd: bool): (Bus, Sender, SendResult) {
    match sent
    case Failed(fault) => (bus, tx, SendFailed(fault))
    case Sent(frame) =>
      match Route(bus, hasFd, p, frame)
      case None => (bus, tx, TooLarge)
      case Some(bus') => (bus', tx.(txCount := Bump(tx.txCount, p)), OnBus)
  }

  function SendSignal(c: Config, s: State, tx: Sender, p: string, payload: Bytes, material: Bytes, slow: bool,
                      hasFd: bool): (State, Sender, SendResult)
  {
    if p !in tx.managed then (s, tx, Unmanaged)
    else if s.guard.ecu != NormalOperation then (s, tx, Suppressed)
    else
      var (s', sent) := Transmit(c, s, p, payload, CanFd, material, slow);
      var (bus, tx', result) := Dispatch(s'.bus, tx, p, sent, hasFd);
      (s'.(bus := bus), tx', result)
  }

  // ---------- runs of the receiver ----------

  datatype Arrival = Arrival(pduId: string, frame: Bytes, material: Bytes)

  function RunFrames(c: Config, s: State, rx: Receiver, arrivals: seq<Arrival>): (State, Receiver) {
    if arrivals == [] then (s, rx)
    else
      var n := |arrivals| - 1;
      var (s', rx') := RunFrames(c, s, rx, arrivals[..n]);
      var (s'', rx'', _) := OnFrame(c, s', rx', arrivals[n].pduId, arrivals[n].frame, arrivals[n].material);
      (s'', rx'')
  }

  /** How many frames of the PDU arrive in the run. */
  function ArrivalsOf(arrivals: seq<Arrival>, p: string): nat {
    if arrivals == [] then 0
    else ArrivalsOf(arrivals[..|arrivals| - 1], p) + if arrivals[|arrivals| - 1].pduId == p then 1 else 0
  }

  // ---------- one cycle: send, read the bus, receive ----------

  datatype Net = Net(s: State, tx: Sender, rx: Receiver)

  function Cycle(c: Config, net: Net, p: string, payload: Bytes, material: Bytes): Net {
    var (s1, tx, _) := SendSignal(c, net.s, net.tx, p, payload, material, false, true);
    match Latest(s1.bus, p)
    case None => Net(s1, tx, net.rx)
    case Some(frame) =>
      var (s2, rx, _) := OnFrame(c, s1, net.rx, p, frame, material);
      Net(s2, tx, rx)
  }

  function Cycles(c: Config, net: Net, p: string, payloads: seq<Bytes>, material: Bytes): Net {
    if payloads == [] then net
    else Cycle(c, Cycles(c, net, p, payloads[..|payloads| - 1], material), p, payloads[|payloads| - 1], material)
  }
}
