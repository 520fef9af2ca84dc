/** What calls and whole runs leave behind besides the verdict: keys, operation count, event log and bus. */
module Traces {
  import opened Bytes
  import opened Wrappers
  import opened SecurityProfile
  import opened PduManager
  import opened Freshness
  import opened Nvm
  import opened Keys
  import opened Policy
  import opened CanBus
  import opened SecOCModel
  import opened SecOCProtocol
  import opened SecOCRuns
  import opened CallOutcomes

  // ---------- keys and operation count ----------

  /** The keys after a MAC job under this id: the id's key exists now, unless the HSM is unavailable. */
  function Created(s: State, id: string, material: Bytes): KeyStore {
    if s.failMode || id in s.keys then s.keys else s.keys[id := Symmetric(material)]
  }

  /** A call whose MAC is generated counts one operation and creates the key it lacks; any other changes neither. */
  lemma TransmitEffect(c: Config, s: State, p: string, authentic: Bytes, transport: Transport, material: Bytes,
                       slow: bool, id: string)
    requires p in c.profiles ==> (HasKey(c, s, p) ==> NamesKey(c, s.store, p, id))
    ensures var (s', r) := Transmit(c, s, p, authentic, transport, material, slow);
            var started := r.Sent? || r == Failed(CryptoFailed);
            && s'.opSeq == s.opSeq + (if started then 1 else 0)
            && s'.keys == (if started then Created(s, id, material) else s.keys)
            && s' == s.(opSeq := s'.opSeq, keys := s'.keys, guard := s'.guard)
  {
    if p in c.profiles {
      HasKeyIff(c, s, p);
      KeyOfIff(c, s.store, p, id);
      GenerateEffect(c, s, p, Padded(authentic, transport), LastValid(s.store, p) + 1, transport, material, slow, id);
    }
  }

  lemma GenerateEffect(c: Config, s: State, p: string, a: Bytes, v: int, transport: Transport, material: Bytes,
                       slow: bool, id: string)
    requires p in c.profiles && (KeyOf(c, s.store, p).Some? ==> KeyOf(c, s.store, p) == Some(id))
    ensures var (s', r) := GenerateMac(c, s, p, a, v, transport, material, slow);
            var started := r.Ok? || r == Err(CryptoFailed);
            && s'.opSeq == s.opSeq + (if started then 1 else 0)
            && s'.keys == (if started then Created(s, id, material) else s.keys)
            && s' == s.(opSeq := s'.opSeq, keys := s'.keys, guard := s'.guard)
  {}

  /** A reception whose MAC is checked creates the key it lacks; none counts an operation. */
  lemma ReceiveEffect(c: Config, s: State, p: string, frame: Bytes, transport: Transport, material: Bytes, id: string)
    requires p in c.profiles ==> (HasKey(c, s, p) ==> NamesKey(c, s.store, p, id))
    ensures var (s', r) := Receive(c, s, p, frame, transport, material);
            var started := r.Accepted? || r == Rejected(MacMismatch) || r == Raised(CryptoFailed);
            && s'.keys == (if started then Created(s, id, material) else s.keys)
            && s' == s.(keys := s'.keys, store := s'.store, guard := s'.guard, bus := s'.bus)
  {
    if p in c.profiles {
      HasKeyIff(c, s, p);
      KeyOfIff(c, s.store, p, id);
      JudgeEffect(c, s, p, frame, transport, material, id);
    }
  }

  lemma JudgeEffect(c: Config, s: State, p: string, frame: Bytes, transport: Transport, material: Bytes, id: string)
    requires p in c.profiles && (KeyOf(c, s.store, p).Some? ==> KeyOf(c, s.store, p) == Some(id))
    ensures var (keys', verdict) := Judge(c, s, p, frame, transport, material);
            keys' == if verdict.Take? || verdict == Refuse(MacMismatch) || verdict == Throw(CryptoFailed)
                     then Created(s, id, material) else s.keys
  {
    forall a, v, mac {
      VerifyEffect(c, s, p, a, v, mac, transport, material, id);
    }
  }

  lemma VerifyEffect(c: Config, s: State, p: string, a: Bytes, v: int, mac: Bytes, transport: Transport,
                     material: Bytes, id: string)
    requires p in c.profiles && (KeyOf(c, s.store, p).Some? ==> KeyOf(c, s.store, p) == Some(id))
    ensures var (keys', r) := VerifyMac(c, s, p, a, v, mac, transport, material);
            keys' == (if r.Ok? || r == Err(CryptoFailed) then Created(s, id, material) else s.keys)
            && (r.Err? ==> r.error == NoKey || r.error == NoClassicLengths || r.error == CryptoFailed)
  {}

  // ---------- resync and HSM failure ----------

  /** A resync sets the PDU's value and nothing else, so the peer's next frame is taken while it fits. */
  lemma ResyncTakesEffect(c: Config, s: State, p: string, v: int, frame: Bytes, a: Bytes, transport: Transport,
                          material: Bytes, f: nat, m: nat, k: Bytes)
    requires Operational(c, s, p, transport, material, f, m, k) && 0 < f + m
    requires 1 <= c.window <= Capacity(f) && c.window <= Modulus(c)
    requires Carries(c, p, frame, v + 1, a, transport, f, m, k)
    ensures var s' := Step(c, s, ResyncOp(p, v));
            && s' == s.(store := s'.store) && LastValid(s'.store, p) == v
            && Receive(c, s', p, frame, transport, material).1
               == if NextFits(v, f, c.freshnessLength) then Accepted(a) else Rejected(FreshnessOutOfWindow)
  {
    var s' := Step(c, s, ResyncOp(p, v));
    CommitIsLocal(s.store, p, v, p);
    NextFrameOutcome(c, s', p, frame, a, transport, material, f, m, k);
  }

  /** While the HSM is made to fail nothing is sent, accepted or rekeyed; switching it back undoes just that. */
  lemma HsmFailureStopsAll(c: Config, s: State, p: string, a: Bytes, transport: Transport, material: Bytes, slow: bool,
                           frame: Bytes, keyId: string)
    ensures var down := Step(c, s, FailModeOp(true));
            && !Transmit(c, down, p, a, transport, material, slow).1.Sent?
            && !Receive(c, down, p, frame, transport, material).1.Accepted?
            && Step(c, down, RotateOp(p, keyId, material)) == down
            && Step(c, down, ProvisionOp(p, keyId, material)) == down
            && Step(c, down, FailModeOp(false)) == s.(failMode := false)
  {
    var down := Step(c, s, FailModeOp(true));
    TransmitOutcome(c, down, p, a, transport, material, slow);
    if p in c.profiles {
      forall b, v, mac {
        DownFails(c, down, p, b, v, mac, transport, material);
      }
    }
  }

  lemma DownFails(c: Config, s: State, p: string, a: Bytes, v: int, mac: Bytes, transport: Transport, material: Bytes)
    requires p in c.profiles && s.failMode
    ensures VerifyMac(c, s, p, a, v, mac, transport, material).1.Err?
  {}

  // ---------- the event log ----------

  function ReasonWord(reason: RejectionReason): string {
    if reason.MacMismatch? then "MAC_MISMATCH"
    else if reason.FreshnessOutOfWindow? then "FRESHNESS_OUT_OF_WINDOW"
    else "MALFORMED_STRUCTURE"
  }

  /** The rejection of a PDU's frame for a reason. */
  function RejectionEntry(p: string, reason: RejectionReason): DemEvent {
    DemEvent("SECOC_AUTH_FAIL", Critical, "Rejected pdu_id=" + p + ": " + ReasonWord(reason), "", map["pdu_id" := p])
  }

  const LOCKOUT_ENTRY := DemEvent("SAFE_STATE_ENTERED", Critical, "SAFE_STATE_ENTERED", "SR-14", map[])
  const BUDGET_ENTRY := DemEvent("WCET_EXCEEDED", Warning, "WCET_EXCEEDED", "SW-SecOC-08", map[])
  const RESET_ENTRY := DemEvent("ECU_RESET", Info, "ECU_RESET", "SecOC-RESET", map[])

  /** What an operation writes to the log, in order. */
  function Entries(c: Config, s: State, op: Op): seq<DemEvent> {
    match op
    case ReceiveOp(p, frame, transport, material) =>
      (match Receive(c, s, p, frame, transport, material).1
       case Rejected(reason) =>
         [RejectionEntry(p, reason)]
         + if !s.guard.locked && FailureCount(s.guard, p) + 1 >= 5 then [LOCKOUT_ENTRY] else []
       case _ => [])
    case TransmitOp(p, authentic, transport, material, slow) =>
      if slow && Transmit(c, s, p, authentic, transport, material, slow).1.Sent? then [BUDGET_ENTRY] else []
    case ResetEcuOp => [RESET_ENTRY]
    case _ => []
  }

  lemma RejectWrites(g: Guard, p: string, reason: RejectionReason)
    ensures Reject(g, p, reason).events
         == g.events + ([RejectionEntry(p, reason)]
                        + if !g.locked && FailureCount(g, p) + 1 >= 5 then [LOCKOUT_ENTRY] else [])
  {
    assert g.events + [RejectionEntry(p, reason)] + [LOCKOUT_ENTRY]
        == g.events + ([RejectionEntry(p, reason)] + [LOCKOUT_ENTRY]);
  }

  lemma StepWrites(c: Config, s: State, op: Op)
    ensures Step(c, s, op).guard.events == s.guard.events + Entries(c, s, op)
  {
    match op
    case ReceiveOp(p, frame, transport, material) =>
      OtherwiseKept(c, s, p, frame, transport, material);
      var r := Receive(c, s, p, frame, transport, material).1;
      if r.Accepted? {
        AcceptedCommits(c, s, p, frame, transport, material);
      } else if r.Rejected? {
        RejectWrites(s.guard, p, r.reason);
      }
    case TransmitOp(p, authentic, transport, material, slow) =>
      TransmitWrites(c, s, p, authentic, transport, material, slow);
    case _ =>
  }

  lemma TransmitWrites(c: Config, s: State, p: string, authentic: Bytes, transport: Transport, material: Bytes,
                       slow: bool)
    ensures var (s', r) := Transmit(c, s, p, authentic, transport, material, slow);
            s'.guard.events == s.guard.events + if slow && r.Sent? then [BUDGET_ENTRY] else []
  {
    TransmitIsMac(c, s, p, authentic, transport, material, slow);
    if p in c.profiles {
      GenerateWrites(c, s, p, Padded(authentic, transport), LastValid(s.store, p) + 1, transport, material, slow);
    }
  }

  lemma GenerateWrites(c: Config, s: State, p: string, a: Bytes, v: int, transport: Transport, material: Bytes,
                       slow: bool)
    requires p in c.profiles
    ensures var (s', r) := GenerateMac(c, s, p, a, v, transport, material, slow);
            s'.guard.events == s.guard.events + if slow && r.Ok? then [BUDGET_ENTRY] else []
  {}

  function AllEntries(c: Config, s: State, ops: seq<Op>): seq<DemEvent> {
    if ops == [] then []
    else
      var n := |ops| - 1;
      AllEntries(c, s, ops[..n]) + Entries(c, Run(c, s, ops[..n]), ops[n])
  }

  /**
   The log over any run: what was there stays, and what is added is, in order,
   one entry with PDU and reason for each rejected frame, the lockout right
   after the failure that causes it, an entry for each reset_ecu, and one for
   each frame sent over the time budget.
   */
  lemma {:induction false} RunWrites(c: Config, s: State, ops: seq<Op>)
    ensures Run(c, s, ops).guard.events == s.guard.events + AllEntries(c, s, ops)
  {
    if ops != [] {
      var n := |ops| - 1;
      RunWrites(c, s, ops[..n]);
      StepWrites(c, Run(c, s, ops[..n]), ops[n]);
      Append(s.guard.events, AllEntries(c, s, ops[..n]), Entries(c, Run(c, s, ops[..n]), ops[n]));
    }
  }

  lemma Append<T>(a: seq<T>, b: seq<T>, c: seq<T>)
    ensures a + b + c == a + (b + c)
  {}

  // ---------- the bus ----------

  /** What an operation puts on the bus: an accepted frame. */
  function Published(c: Config, s: State, op: Op): seq<(string, Bytes)> {
    if op.ReceiveOp? && Receive(c, s, op.pduId, op.frame, op.transport, op.material).1.Accepted?
    then [(op.pduId, op.frame)] else []
  }

  function AllPublished(c: Config, s: State, ops: seq<Op>): seq<(string, Bytes)> {
    if ops == [] then []
    else
      var n := |ops| - 1;
      AllPublished(c, s, ops[..n]) + Published(c, Run(c, s, ops[..n]), ops[n])
  }

  /** The PDU's last frame in the sequence, or else the given one. */
  function LastOf(frames: seq<(string, Bytes)>, p: string, before: Option<Bytes>): Option<Bytes> {
    if frames == [] then before
    else
      var n := |frames| - 1;
      if frames[n].0 == p then Some(frames[n].1) else LastOf(frames[..n], p, before)
  }

  lemma StepPublishes(c: Config, s: State, op: Op, p: string)
    ensures var b, b', fs := s.bus, Step(c, s, op).bus, Published(c, s, op);
            b'.queue == b.queue + fs && Latest(b', p) == LastOf(fs, p, Latest(b, p))
  {
    match op
    case ReceiveOp(q, frame, transport, material) =>
      OtherwiseKept(c, s, q, frame, transport, material);
      if Receive(c, s, q, frame, transport, material).1.Accepted? {
        AcceptedCommits(c, s, q, frame, transport, material);
      }
    case TransmitOp(q, authentic, transport, material, slow) =>
      TransmitKeepsStore(c, s, q, authentic, transport, material, slow);
    case _ =>
  }

  lemma {:induction false} LastOfAppended(fs: seq<(string, Bytes)>, gs: seq<(string, Bytes)>, p: string,
                                          before: Option<Bytes>)
    ensures LastOf(fs + gs, p, before) == LastOf(gs, p, LastOf(fs, p, before))
  {
    if gs == [] {
      assert fs + gs == fs;
    } else {
      var n := |gs| - 1;
      assert (fs + gs)[..|fs + gs| - 1] == fs + gs[..n];
      LastOfAppended(fs, gs[..n], p, before);
    }
  }

  /**
   Over any run exactly the accepted frames are queued, behind what was queued
   before and in the order of acceptance, and each PDU's latest frame is the
   last of its own among them.
   */
  lemma {:induction false} RunPublishes(c: Config, s: State, ops: seq<Op>, p: string)
    ensures Run(c, s, ops).bus.queue == s.bus.queue + AllPublished(c, s, ops)
    ensures Latest(Run(c, s, ops).bus, p) == LastOf(AllPublished(c, s, ops), p, Latest(s.bus, p))
  {
    if ops != [] {
      var n := |ops| - 1;
      RunPublishes(c, s, ops[..n], p);
      var mid := Run(c, s, ops[..n]);
      StepPublishes(c, mid, ops[n], p);
      Append(s.bus.queue, AllPublished(c, s, ops[..n]), Published(c, mid, ops[n]));
      LastOfAppended(AllPublished(c, s, ops[..n]), Published(c, mid, ops[n]), p, Latest(s.bus, p));
    }
  }
}
