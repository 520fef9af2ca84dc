/** The protocol on values: one function per public operation of the SecOC orchestrator. */
module SecOCModel {
  import opened Bytes
  import opened Wrappers
  import opened SecurityProfile
  import opened PduManager
  import opened Freshness
  import opened Nvm
  import opened Keys
  import opened Policy
  import opened CanBus

  /** What a run does not change; `managed` says whether key records or profiles name the keys. */
  datatype Config = Config(
    profiles: map<string, Profile>, window: int, freshnessLength: nat, managed: bool, hmac: HmacFn)

  datatype State = State(
    store: Store, keys: KeyStore, failMode: bool, opSeq: nat, guard: Guard, bus: Bus)

  /** The exceptions that leave an operation. */
  datatype Fault = NoProfile | NoClassicLengths | PayloadTooLong | CorruptCell | NoKey | CryptoFailed

  datatype Received = Accepted(payload: Bytes) | Rejected(reason: RejectionReason) | Raised(fault: Fault)

  datatype Transmitted = Sent(frame: Bytes) | Failed(fault: Fault)

  function Modulus(c: Config): (m: nat)
    ensures m > 0
  {
    Capacity(c.freshnessLength)
  }

  function KeyOf(c: Config, store: Store, pduId: string): Option<string>
    requires pduId in c.profiles
  {
    if c.managed then ResolveKey(store, pduId) else Some(c.profiles[pduId].keyId)
  }

  /** The protected region: payload and the truncated freshness value, as they stand on the wire. */
  function MacInput(authentic: Bytes, freshness: int, f: nat): Bytes {
    authentic + ToBytes(Truncated(freshness, f), f)
  }

  /** The leftmost m bytes of the HMAC under the named key; every HSM error becomes a failed job. */
  function Mac(hmac: HmacFn, keys: KeyStore, failMode: bool, keyId: string, data: Bytes, m: nat, material: Bytes):
    (KeyStore, Result<Bytes, Fault>)
  {
    var (keys', r) := Hmac(hmac, keys, failMode, keyId, data, material);
    (keys', match r case Ok(d) => Ok(Prefix(d, m)) case Err(_) => Err(CryptoFailed))
  }

  function GenerateMac(c: Config, s: State, pduId: string, authentic: Bytes, freshness: int, transport: Transport,
                       material: Bytes, slow: bool): (State, Result<Bytes, Fault>)
    requires pduId in c.profiles
  {
    match KeyOf(c, s.store, pduId)
    case None => (s, Err(NoKey))
    case Some(keyId) =>
      match c.profiles[pduId].TruncationLengths(transport)
      case None => (s, Err(NoClassicLengths))
      case Some((f, m)) =>
        var (keys', r) := Mac(c.hmac, s.keys, s.failMode, keyId, MacInput(authentic, freshness, f), m, material);
        var s' := s.(keys := keys', opSeq := s.opSeq + 1);
        (if r.Ok? && slow then s'.(guard := LogEvent(s.guard, Logged(Warning, WCET_EXCEEDED, "SW-SecOC-08"))) else s',
         r)
  }

  function VerifyMac(c: Config, s: State, pduId: string, authentic: Bytes, freshness: int, mac: Bytes,
                     transport: Transport, material: Bytes): (KeyStore, Result<bool, Fault>)
    requires pduId in c.profiles
  {
    match KeyOf(c, s.store, pduId)
    case None => (s.keys, Err(NoKey))
    case Some(keyId) =>
      match c.profiles[pduId].TruncationLengths(transport)
      case None => (s.keys, Err(NoClassicLengths))
      case Some((f, m)) =>
        var (keys', r) := Mac(c.hmac, s.keys, s.failMode, keyId, MacInput(authentic, freshness, f), m, material);
        (keys', match r case Ok(expected) => Ok(expected == mac) case Err(e) => Err(e))
  }

  /** What is raised for a cell without a whole number: a float gets as far as the MAC's input, nothing else does. */
  function CellFault(c: Config, s: State, pduId: string, transport: Transport): Fault
    requires pduId in c.profiles
  {
    if Cell(s.store, pduId).Float? && KeyOf(c, s.store, pduId).None? then NoKey
    else if Cell(s.store, pduId).Float? && c.profiles[pduId].TruncationLengths(transport).None? then NoClassicLengths
    else CorruptCell
  }

  /** Classic CAN payloads are right-padded with zeros to four bytes. */
  function Padded(authentic: Bytes, transport: Transport): Bytes {
    if transport.ClassicCan? && |authentic| < CLASSIC_CAN_PAYLOAD
    then authentic + seq(CLASSIC_CAN_PAYLOAD - |authentic|, _ => 0)
    else authentic
  }

  /** The frame around a generated MAC, or the fault that prevented it. */
  function Assemble(c: Config, pduId: string, payload: Bytes, v: int, transport: Transport,
                    mac: Result<Bytes, Fault>): Transmitted
    requires pduId in c.profiles
  {
    match mac
    case Err(e) => Failed(e)
    case Ok(tag) =>
      match c.profiles[pduId].TruncationLengths(transport)
      case None => Failed(NoClassicLengths)
      case Some((f, _)) => Sent(Build(payload, v, tag, f))
  }

  function Transmit(c: Config, s: State, pduId: string, authentic: Bytes, transport: Transport,
                    material: Bytes, slow: bool): (State, Transmitted)
  {
    if pduId !in c.profiles then (s, Failed(NoProfile))
    else if transport.ClassicCan? && |authentic| > CLASSIC_CAN_PAYLOAD then (s, Failed(PayloadTooLong))
    else if !Readable(s.store, pduId) then (s, Failed(CellFault(c, s, pduId, transport)))
    else
      var payload := Padded(authentic, transport);
      var v := LastValid(s.store, pduId) + 1;
      var (s', r) := GenerateMac(c, s, pduId, payload, v, transport, material, slow);
      (s', Assemble(c, pduId, payload, v, transport, r))
  }

  /** The checks of receive_secured in source order, before anything is committed or counted. */
  datatype Verdict = Take(full: int, payload: Bytes) | Refuse(reason: RejectionReason) | Throw(fault: Fault)

  function Judge(c: Config, s: State, pduId: string, frame: Bytes, transport: Transport, material: Bytes):
    (KeyStore, Verdict)
  {
    if pduId !in c.profiles then (s.keys, Throw(NoProfile))
    else
      match c.profiles[pduId].TruncationLengths(transport)
      case None => (s.keys, Throw(NoClassicLengths))
      case Some((f, m)) =>
        match ParseFrame(frame, f, m, transport)
        case Malformed => (s.keys, Refuse(MalformedStructure))
        case Parsed(authentic, t, mac) =>
          match CheckCell(Cell(s.store, pduId), c.window, Modulus(c), t)
          case Unreadable => (s.keys, Throw(CorruptCell))
          case FloatFull(_) => (s.keys, Throw(CellFault(c, s, pduId, transport)))
          case OutOfWindow => (s.keys, Refuse(FreshnessOutOfWindow))
          case Full(v) =>
            var (keys', ok) := VerifyMac(c, s, pduId, authentic, v, mac, transport, material);
            (keys', match ok
                    case Err(e) => Throw(e)
                    case Ok(good) => if good then Take(v, authentic) else Refuse(MacMismatch))
  }

  /** receive_secured: commit then publish a frame that passes, reject and count one that does not. */
  function Receive(c: Config, s: State, pduId: string, frame: Bytes, transport: Transport, material: Bytes):
    (State, Received)
  {
    var (keys', verdict) := Judge(c, s, pduId, frame, transport, material);
    match verdict
    case Take(v, payload) =>
      (s.(keys := keys', store := Commit(s.store, pduId, v), bus := Publish(s.bus, pduId, frame)), Accepted(payload))
    case Refuse(reason) => (s.(keys := keys', guard := Reject(s.guard, pduId, reason)), Rejected(reason))
    case Throw(fault) => (s.(keys := keys'), Raised(fault))
  }

  // ---------- runs of the whole stack ----------

  datatype Op =
    | ReceiveOp(pduId: string, frame: Bytes, transport: Transport, material: Bytes)
    | TransmitOp(pduId: string, authentic: Bytes, transport: Transport, material: Bytes, slow: bool)
    | ResyncOp(pduId: string, value: int)
    | RotateOp(pduId: string, keyId: string, material: Bytes)
    | ProvisionOp(pduId: string, keyId: string, material: Bytes)
    | ResetOp
    | ResetEcuOp
    | FailModeOp(failMode: bool)

  function Step(c: Config, s: State, op: Op): State {
    match op
    case ReceiveOp(p, frame, transport, material) => Receive(c, s, p, frame, transport, material).0
    case TransmitOp(p, authentic, transport, material, slow) =>
      Transmit(c, s, p, authentic, transport, material, slow).0
    case ResyncOp(p, v) => s.(store := Commit(s.store, p, v))
    case RotateOp(p, keyId, material) =>
      var (store', keys', _) := Rotate(s.store, s.keys, s.failMode, p, keyId, material);
      s.(store := store', keys := keys')
    case ProvisionOp(p, keyId, material) =>
      var (store', keys', _) := Provision(s.store, s.keys, s.failMode, p, keyId, material);
      s.(store := store', keys := keys')
    case ResetOp => s.(guard := Reset(s.guard))
    case ResetEcuOp => s.(guard := ResetEcu(s.guard))
    case FailModeOp(b) => s.(failMode := b)
  }

  function Run(c: Config, s: State, ops: seq<Op>): State {
    if ops == [] then s else Step(c, Run(c, s, ops[..|ops| - 1]), ops[|ops| - 1])
  }

  predicate AcceptsFor(c: Config, s: State, op: Op, pduId: string) {
    op.ReceiveOp? && op.pduId == pduId && Receive(c, s, op.pduId, op.frame, op.transport, op.material).1.Accepted?
  }

  /** How many frames of the PDU a run accepts. */
  function Acceptances(c: Config, s: State, ops: seq<Op>, pduId: string): nat {
    if ops == [] then 0
    else
      var n := |ops| - 1;
      Acceptances(c, s, ops[..n], pduId) + if AcceptsFor(c, Run(c, s, ops[..n]), ops[n], pduId) then 1 else 0
  }

  predicate NoResync(ops: seq<Op>, pduId: string) {
    forall i :: 0 <= i < |ops| ==> !(ops[i].ResyncOp? && ops[i].pduId == pduId)
  }
}
