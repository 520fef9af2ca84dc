/** Whole runs at the ECU: every frame accounted for, bounded escalation, and n clean send/receive cycles. */
module EcuAccounting {
  import opened Bytes
  import opened SecurityProfile
  import opened PduManager
  import opened Freshness
  import opened Policy
  import opened CanBus
  import opened SecOCModel
  import opened SecOCProtocol
  import opened SecOCRuns
  import opened Isolation
  import opened EcuModel

  // ---------- every frame is accounted for ----------

  /** The PDU has no key record, or the HSM cannot compute an HMAC with its key. */
  predicate KeyUnusable(c: Config, s: State, p: string)
    requires p in c.profiles
  {
    match KeyOf(c, s.store, p)
    case None => true
    case Some(id) => s.failMode || (id in s.keys && s.keys[id].EcPrivate?)
  }

  /** The frame parses, and its check against the freshness cell raises at once or leaves a float for the MAC. */
  predicate CellRaises(c: Config, s: State, p: string, frame: Bytes) {
    match WireValue(c, p, frame, CanFd)
    case None => false
    case Some(t) =>
      var checked := CheckCell(Cell(s.store, p), c.window, Modulus(c), t);
      checked.Unreadable? || checked.FloatFull?
  }

  /**
   The frame reaches receive_secured and makes it raise: the PDU has no
   profile; or the frame parses and the freshness cell is no number, or a float
   that puts the frame inside the window; or the frame is fresh and there is no
   key to check it with.
   */
  predicate Raises(c: Config, s: State, rx: Receiver, a: Arrival) {
    && a.pduId in rx.managed
    && s.guard.ecu == NormalOperation
    && (|| a.pduId !in c.profiles
        || CellRaises(c, s, a.pduId, a.frame)
        || (FullValue(c, s, a.pduId, a.frame, CanFd).Some? && KeyUnusable(c, s, a.pduId)))
  }

  /** An exception escapes on_frame_received for exactly these frames. */
  lemma EscapeIffRaises(c: Config, s: State, rx: Receiver, a: Arrival)
    ensures OnFrame(c, s, rx, a.pduId, a.frame, a.material).2.Escaped? <==> Raises(c, s, rx, a)
  {
    if a.pduId in rx.managed && s.guard.ecu == NormalOperation {
      ReceiveRaises(c, s, a.pduId, a.frame, a.material);
    }
  }

  lemma ReceiveRaises(c: Config, s: State, p: string, frame: Bytes, material: Bytes)
    ensures Receive(c, s, p, frame, CanFd, material).1.Raised?
       <==> p !in c.profiles
            || CellRaises(c, s, p, frame)
            || (FullValue(c, s, p, frame, CanFd).Some? && KeyUnusable(c, s, p))
  {
    JudgeThrows(c, s, p, frame, material);
  }

  lemma JudgeThrows(c: Config, s: State, p: string, frame: Bytes, material: Bytes)
    ensures Judge(c, s, p, frame, CanFd, material).1.Throw?
       <==> p !in c.profiles
            || CellRaises(c, s, p, frame)
            || (FullValue(c, s, p, frame, CanFd).Some? && KeyUnusable(c, s, p))
  {
    if p in c.profiles {
      var (f, m) := c.profiles[p].TruncationLengths(CanFd).value;
      var parsed := ParseFrame(frame, f, m, CanFd);
      if parsed.Parsed? {
        var checked := CheckCell(Cell(s.store, p), c.window, Modulus(c), parsed.freshness);
        if checked.Full? {
          VerifyFails(c, s, p, parsed.authentic, checked.value, parsed.mac, material);
        }
      }
    }
  }

  lemma VerifyFails(c: Config, s: State, p: string, authentic: Bytes, v: int, mac: Bytes, material: Bytes)
    requires p in c.profiles
    ensures VerifyMac(c, s, p, authentic, v, mac, CanFd, material).1.Err? <==> KeyUnusable(c, s, p)
  {}

  /** How many arrivals of the PDU in the run raise, each judged in the state that it finds. */
  function EscapesOf(c: Config, s: State, rx: Receiver, arrivals: seq<Arrival>, p: string): nat {
    if arrivals == [] then 0
    else
      var n := |arrivals| - 1;
      var (s', rx') := RunFrames(c, s, rx, arrivals[..n]);
      EscapesOf(c, s, rx, arrivals[..n], p) + if arrivals[n].pduId == p && Raises(c, s', rx', arrivals[n]) then 1 else 0
  }

  /** One arrival: which counter moves, and what that says about the last valid value. */
  lemma FrameAccounted(c: Config, s: State, rx: Receiver, a: Arrival, p: string)
    requires p in rx.managed
    ensures var (s', rx', r) := OnFrame(c, s, rx, a.pduId, a.frame, a.material);
            var mine := if a.pduId == p then 1 else 0;
            var dl := LastValid(s'.store, p) - LastValid(s.store, p);
            && rx'.managed == rx.managed
            && Count(rx'.accepted, p) == Count(rx.accepted, p) + (if r.Taken? then mine else 0)
            && Count(rx'.rejected, p) == Count(rx.rejected, p) + (if r.Dropped? then mine else 0)
            && (if r.Taken? && mine == 1 then 1 <= dl <= c.window else dl == 0)
  {
    if a.pduId in rx.managed && s.guard.ecu == NormalOperation {
      StepGrowth(c, s, ReceiveOp(a.pduId, a.frame, CanFd, a.material), p);
    }
  }

  /** What a run has done to one PDU's counters and last valid value. */
  ghost predicate Accounted(c: Config, s: State, rx: Receiver, s': State, rx': Receiver, p: string,
                            arrived: int, escaped: int)
  {
    var accepted := Count(rx'.accepted, p) - Count(rx.accepted, p);
    var rejected := Count(rx'.rejected, p) - Count(rx.rejected, p);
    var dl := LastValid(s'.store, p) - LastValid(s.store, p);
    && rx'.managed == rx.managed
    && accepted >= 0 && rejected >= 0
    && accepted + rejected + escaped == arrived
    && accepted <= dl <= c.window * accepted
  }

  lemma OneMoreFrame(c: Config, s: State, rx: Receiver, mid: State, rxm: Receiver, a: Arrival, p: string,
                     arrived: int, escaped: int)
    requires p in rx.managed && Accounted(c, s, rx, mid, rxm, p, arrived, escaped)
    ensures var (s', rx', r) := OnFrame(c, mid, rxm, a.pduId, a.frame, a.material);
            Accounted(c, s, rx, s', rx', p, arrived + (if a.pduId == p then 1 else 0),
                      escaped + if a.pduId == p && Raises(c, mid, rxm, a) then 1 else 0)
  {
    EscapeIffRaises(c, mid, rxm, a);
    FrameAccounted(c, mid, rxm, a, p);
    Distribute(c.window, Count(rxm.accepted, p) - Count(rx.accepted, p));
  }

  /**
   In any run through on_frame_received: accepted plus rejected frames of a
   managed PDU are exactly its arrivals, less those that raise, and its last
   valid value has risen by at least one and at most a window per accepted
   frame.
   */
  lemma {:induction false} ReceiverAccounting(c: Config, s: State, rx: Receiver, arrivals: seq<Arrival>, p: string)
    requires p in rx.managed
    ensures var (s', rx') := RunFrames(c, s, rx, arrivals);
            Accounted(c, s, rx, s', rx', p, ArrivalsOf(arrivals, p), EscapesOf(c, s, rx, arrivals, p))
  {
    if arrivals != [] {
      var n := |arrivals| - 1;
      ReceiverAccounting(c, s, rx, arrivals[..n], p);
      var (mid, rxm) := RunFrames(c, s, rx, arrivals[..n]);
      OneMoreFrame(c, s, rx, mid, rxm, arrivals[n], p, ArrivalsOf(arrivals[..n], p),
                   EscapesOf(c, s, rx, arrivals[..n], p));
    }
  }

  /** No arrival of the PDU raises in the state that it finds. */
  ghost predicate NoneRaises(c: Config, s: State, rx: Receiver, arrivals: seq<Arrival>, p: string) {
    forall i :: 0 <= i < |arrivals| && arrivals[i].pduId == p ==> !RaisesAt(c, s, rx, arrivals, i)
  }

  predicate RaisesAt(c: Config, s: State, rx: Receiver, arrivals: seq<Arrival>, i: nat)
    requires i < |arrivals|
  {
    var (s', rx') := RunFrames(c, s, rx, arrivals[..i]);
    Raises(c, s', rx', arrivals[i])
  }

  lemma RaisesAtPrefix(c: Config, s: State, rx: Receiver, arrivals: seq<Arrival>, n: nat, i: nat)
    requires i < n <= |arrivals|
    ensures RaisesAt(c, s, rx, arrivals[..n], i) <==> RaisesAt(c, s, rx, arrivals, i)
  {
    assert arrivals[..n][..i] == arrivals[..i];
  }

  lemma NoneRaisesStep(c: Config, s: State, rx: Receiver, arrivals: seq<Arrival>, p: string)
    requires arrivals != []
    ensures var n := |arrivals| - 1;
            NoneRaises(c, s, rx, arrivals, p)
            == (NoneRaises(c, s, rx, arrivals[..n], p) && (arrivals[n].pduId == p ==> !RaisesAt(c, s, rx, arrivals, n)))
  {
    var n := |arrivals| - 1;
    forall i | 0 <= i < n
      ensures RaisesAt(c, s, rx, arrivals[..n], i) <==> RaisesAt(c, s, rx, arrivals, i)
    {
      RaisesAtPrefix(c, s, rx, arrivals, n, i);
    }
    assert forall i :: 0 <= i < n ==> arrivals[..n][i] == arrivals[i];
  }

  lemma EscapesStep(c: Config, s: State, rx: Receiver, arrivals: seq<Arrival>, p: string)
    requires arrivals != []
    ensures var n := |arrivals| - 1;
            EscapesOf(c, s, rx, arrivals, p)
            == EscapesOf(c, s, rx, arrivals[..n], p)
               + if arrivals[n].pduId == p && RaisesAt(c, s, rx, arrivals, n) then 1 else 0
  {}

  lemma {:induction false} NoEscapeIffNoneRaises(c: Config, s: State, rx: Receiver, arrivals: seq<Arrival>, p: string)
    ensures EscapesOf(c, s, rx, arrivals, p) == 0 <==> NoneRaises(c, s, rx, arrivals, p)
  {
    if arrivals != [] {
      NoEscapeIffNoneRaises(c, s, rx, arrivals[..|arrivals| - 1], p);
      NoneRaisesStep(c, s, rx, arrivals, p);
      EscapesStep(c, s, rx, arrivals, p);
    }
  }

  /** Accepted plus rejected frames are exactly the arrivals if and only if no arrival of the PDU raises. */
  lemma AllSettledIffNoneRaises(c: Config, s: State, rx: Receiver, arrivals: seq<Arrival>, p: string)
    requires p in rx.managed
    ensures var rx' := RunFrames(c, s, rx, arrivals).1;
            (Count(rx'.accepted, p) - Count(rx.accepted, p) + Count(rx'.rejected, p) - Count(rx.rejected, p)
             == ArrivalsOf(arrivals, p))
            <==> NoneRaises(c, s, rx, arrivals, p)
  {
    ReceiverAccounting(c, s, rx, arrivals, p);
    NoEscapeIffNoneRaises(c, s, rx, arrivals, p);
  }

  /** Nothing can make receive_secured raise for a managed PDU: profile, cell, key record and HSM are all in order. */
  ghost predicate Healthy(c: Config, s: State, managed: seq<string>) {
    !s.failMode && forall p :: p in managed ==> Usable(c, s, p)
  }

  ghost predicate Usable(c: Config, s: State, p: string) {
    && p in c.profiles
    && Readable(s.store, p)
    && match KeyOf(c, s.store, p)
       case None => false
       case Some(id) => id in s.keys ==> s.keys[id].Symmetric?
  }

  lemma HealthyReception(c: Config, s: State, managed: seq<string>, p: string, frame: Bytes, material: Bytes)
    requires Healthy(c, s, managed) && p in managed
    ensures var (s', r) := Receive(c, s, p, frame, CanFd, material);
            !r.Raised? && Healthy(c, s', managed)
  {
    assert Usable(c, s, p);
    JudgeKeys(c, s, p, frame, CanFd, material);
    OtherwiseKept(c, s, p, frame, CanFd, material);
    var (s', r) := Receive(c, s, p, frame, CanFd, material);
    assert s'.keys == Judge(c, s, p, frame, CanFd, material).0;
    if r.Accepted? {
      AcceptedCommits(c, s, p, frame, CanFd, material);
    }
    forall q | q in managed
      ensures Usable(c, s', q)
    {
      assert Usable(c, s, q);
      if r.Accepted? {
        CommitIsLocal(s.store, p, FullValue(c, s, p, frame, CanFd).value, q);
        CommitKeepsKeyOf(c, s.store, p, FullValue(c, s, p, frame, CanFd).value, q);
      }
    }
  }

  lemma HealthyFrame(c: Config, s: State, rx: Receiver, a: Arrival)
    requires Healthy(c, s, rx.managed)
    ensures var (s', rx', r) := OnFrame(c, s, rx, a.pduId, a.frame, a.material);
            !r.Escaped? && rx'.managed == rx.managed && Healthy(c, s', rx.managed)
  {
    if a.pduId in rx.managed && s.guard.ecu == NormalOperation {
      HealthyReception(c, s, rx.managed, a.pduId, a.frame, a.material);
    }
  }

  /** In a healthy stack no exception ever escapes, so accepted plus rejected frames are exactly the arrivals. */
  lemma {:induction false} HealthyAccounting(c: Config, s: State, rx: Receiver, arrivals: seq<Arrival>, p: string)
    requires Healthy(c, s, rx.managed) && p in rx.managed
    ensures var (s', rx') := RunFrames(c, s, rx, arrivals);
            && Healthy(c, s', rx.managed)
            && EscapesOf(c, s, rx, arrivals, p) == 0
            && Accounted(c, s, rx, s', rx', p, ArrivalsOf(arrivals, p), 0)
  {
    ReceiverAccounting(c, s, rx, arrivals, p);
    if arrivals != [] {
      var n := |arrivals| - 1;
      HealthyAccounting(c, s, rx, arrivals[..n], p);
      var (mid, rxm) := RunFrames(c, s, rx, arrivals[..n]);
      HealthyFrame(c, mid, rxm, arrivals[n]);
    }
  }

  // ---------- what reaches the application ----------

  /** The handler calls that one arrival leads to: one, with the payload, if it is accepted and there is a handler. */
  function HandedOver(c: Config, s: State, rx: Receiver, a: Arrival): seq<(string, Bytes)> {
    if a.pduId !in rx.managed || s.guard.ecu != NormalOperation || a.pduId !in rx.handlers then []
    else match Receive(c, s, a.pduId, a.frame, CanFd, a.material).1
      case Accepted(payload) => [(a.pduId, payload)]
      case _ => []
  }

  /** A frame that is dropped, or on which an exception escapes, calls no handler. */
  lemma FrameHandedOver(c: Config, s: State, rx: Receiver, a: Arrival)
    ensures var (s', rx', r) := OnFrame(c, s, rx, a.pduId, a.frame, a.material);
            && rx'.delivered == rx.delivered + HandedOver(c, s, rx, a)
            && rx'.handlers == rx.handlers && rx'.managed == rx.managed
            && (!r.Taken? ==> rx'.delivered == rx.delivered)
  {}

  function AllHandedOver(c: Config, s: State, rx: Receiver, arrivals: seq<Arrival>): seq<(string, Bytes)> {
    if arrivals == [] then []
    else
      var n := |arrivals| - 1;
      var (s', rx') := RunFrames(c, s, rx, arrivals[..n]);
      AllHandedOver(c, s, rx, arrivals[..n]) + HandedOver(c, s', rx', arrivals[n])
  }

  /** Over any run the application sees exactly the accepted payloads of PDUs with a handler, in order of arrival. */
  lemma {:induction false} RunHandedOver(c: Config, s: State, rx: Receiver, arrivals: seq<Arrival>)
    ensures var rx' := RunFrames(c, s, rx, arrivals).1;
            && rx'.delivered == rx.delivered + AllHandedOver(c, s, rx, arrivals)
            && rx'.handlers == rx.handlers && rx'.managed == rx.managed
  {
    if arrivals != [] {
      var n := |arrivals| - 1;
      RunHandedOver(c, s, rx, arrivals[..n]);
      var (mid, rxm) := RunFrames(c, s, rx, arrivals[..n]);
      FrameHandedOver(c, mid, rxm, arrivals[n]);
      assert rx.delivered + (AllHandedOver(c, s, rx, arrivals[..n]) + HandedOver(c, mid, rxm, arrivals[n]))
          == rx.delivered + AllHandedOver(c, s, rx, arrivals[..n]) + HandedOver(c, mid, rxm, arrivals[n]);
    }
  }

  // ---------- frames of other ECUs ----------

  /** The arrivals for PDUs that the receiver manages. */
  function ManagedOnly(arrivals: seq<Arrival>, managed: seq<string>): seq<Arrival> {
    if arrivals == [] then []
    else
      var last := arrivals[|arrivals| - 1];
      ManagedOnly(arrivals[..|arrivals| - 1], managed) + if last.pduId in managed then [last] else []
  }

  /** Arrivals for PDUs that the receiver does not manage leave no trace at all. */
  lemma {:induction false} UnmanagedLeaveNoTrace(c: Config, s: State, rx: Receiver, arrivals: seq<Arrival>)
    ensures RunFrames(c, s, rx, arrivals) == RunFrames(c, s, rx, ManagedOnly(arrivals, rx.managed))
  {
    if arrivals != [] {
      var n := |arrivals| - 1;
      UnmanagedLeaveNoTrace(c, s, rx, arrivals[..n]);
      RunHandedOver(c, s, rx, arrivals[..n]);
      var init := ManagedOnly(arrivals[..n], rx.managed);
      if arrivals[n].pduId in rx.managed {
        FramesOn(c, s, rx, init, arrivals[n]);
      } else {
        assert init + [] == init;
      }
    }
  }

  lemma FramesOn(c: Config, s: State, rx: Receiver, arrivals: seq<Arrival>, a: Arrival)
    ensures var (s', rx') := RunFrames(c, s, rx, arrivals);
            var (s'', rx'', _) := OnFrame(c, s', rx', a.pduId, a.frame, a.material);
            RunFrames(c, s, rx, arrivals + [a]) == (s'', rx'')
  {
    assert (arrivals + [a])[..|arrivals + [a]| - 1] == arrivals;
  }

  // ---------- bounded escalation ----------

  ghost function Sum(m: map<string, nat>): nat {
    if m == map[] then 0 else var k :| k in m; m[k] + Sum(m - {k})
  }

  lemma {:induction false} SumRemove(m: map<string, nat>, k: string)
    requires k in m
    ensures Sum(m) == m[k] + Sum(m - {k})
    decreases |m|
  {
    var j :| j in m && Sum(m) == m[j] + Sum(m - {j});
    if j != k {
      SumRemove(m - {j}, k);
      SumRemove(m - {k}, j);
      assert m - {j} - {k} == m - {k} - {j};
    }
  }

  lemma SumBump(m: map<string, nat>, p: string)
    ensures Sum(m[p := (if p in m then m[p] else 0) + 1]) == Sum(m) + 1
  {
    var m' := m[p := (if p in m then m[p] else 0) + 1];
    SumRemove(m', p);
    if p in m {
      SumRemove(m, p);
      assert m' - {p} == m - {p};
    } else {
      assert m' - {p} == m;
    }
  }

  lemma {:induction false} SumBound(m: map<string, nat>, limit: nat)
    requires forall k :: k in m ==> m[k] <= limit
    ensures Sum(m) <= limit * |m|
    decreases |m|
  {
    if m != map[] {
      var k :| k in m;
      SumRemove(m, k);
      SumBound(m - {k}, limit);
      assert |m - {k}| == |m| - 1;
      Distribute(limit, |m| - 1);
    }
  }

  ghost function Managed(rx: Receiver): set<string> {
    set p | p in rx.managed
  }

  ghost predicate BelowLimit(counts: map<string, nat>) {
    forall p :: p in counts ==> counts[p] < MAX_AUTH_FAILURES
  }

  /** One PDU is exactly at the limit and every other one below it. */
  ghost predicate OneAtLimit(counts: map<string, nat>) {
    exists p :: p in counts && counts[p] == MAX_AUTH_FAILURES && BelowLimit(counts - {p})
  }

  /** The fault state of a gated receiver: counts explain the log, and lockout came with the first fifth failure. */
  ghost predicate Escalation(g: Guard, managed: set<string>, base: nat) {
    && g.counts.Keys <= managed
    && CountEvents(g.events, AUTH_FAIL) == base + Sum(g.counts)
    && (!g.locked ==> g.ecu == NormalOperation && BelowLimit(g.counts))
    && (g.locked ==> g.ecu == SecurityViolationLockout && OneAtLimit(g.counts))
  }

  lemma CodesDiffer()
    ensures AUTH_FAIL != SAFE_STATE_ENTERED
  {
    assert AUTH_FAIL[1] == 'E' && SAFE_STATE_ENTERED[1] == 'A';
  }

  lemma EvaluationNotLoggedAsFailure(g: Guard, failures: nat)
    ensures CountEvents(Evaluate(g, failures).events, AUTH_FAIL) == CountEvents(g.events, AUTH_FAIL)
    ensures Evaluate(g, failures).counts == g.counts
  {
    CodesDiffer();
    CountAppend(g.events, Logged(Critical, SAFE_STATE_ENTERED, "SR-14"), AUTH_FAIL);
  }

  lemma RejectionLogged(g: Guard, p: string, reason: RejectionReason)
    ensures CountEvents(Reject(g, p, reason).events, AUTH_FAIL) == CountEvents(g.events, AUTH_FAIL) + 1
    ensures Reject(g, p, reason).counts == g.counts[p := FailureCount(g, p) + 1]
  {
    var e, n := RejectionEvent(p, reason), FailureCount(g, p) + 1;
    CountAppend(g.events, e, AUTH_FAIL);
    EvaluationNotLoggedAsFailure(LogEvent(g, e).(counts := g.counts[p := n]), n);
  }

  lemma RejectEscalates(g: Guard, p: string, reason: RejectionReason, managed: set<string>, base: nat)
    requires Escalation(g, managed, base) && !g.locked && p in managed
    ensures Escalation(Reject(g, p, reason), managed, base)
  {
    var g' := Reject(g, p, reason);
    RejectionLogged(g, p, reason);
    SumBump(g.counts, p);
    assert g'.locked <==> g'.counts[p] >= MAX_AUTH_FAILURES;
    if g'.locked {
      assert g'.counts[p] == MAX_AUTH_FAILURES;
      forall q | q in g'.counts - {p}
        ensures (g'.counts - {p})[q] < MAX_AUTH_FAILURES
      {
        assert q in g.counts;
      }
    }
  }

  lemma FrameEscalates(c: Config, s: State, rx: Receiver, a: Arrival, base: nat)
    requires Escalation(s.guard, Managed(rx), base)
    ensures Escalation(OnFrame(c, s, rx, a.pduId, a.frame, a.material).0.guard, Managed(rx), base)
  {
    if a.pduId in rx.managed && s.guard.ecu == NormalOperation {
      var (s', r) := Receive(c, s, a.pduId, a.frame, CanFd, a.material);
      OtherwiseKept(c, s, a.pduId, a.frame, CanFd, a.material);
      if r.Rejected? {
        RejectEscalates(s.guard, a.pduId, r.reason, Managed(rx), base);
      } else if r.Accepted? {
        AcceptedCommits(c, s, a.pduId, a.frame, CanFd, a.material);
      }
    }
  }

  lemma {:induction false} RunEscalates(c: Config, s: State, rx: Receiver, arrivals: seq<Arrival>, base: nat)
    requires Escalation(s.guard, Managed(rx), base)
    ensures var (s', rx') := RunFrames(c, s, rx, arrivals);
            rx'.managed == rx.managed && Escalation(s'.guard, Managed(rx), base)
  {
    if arrivals != [] {
      var n := |arrivals| - 1;
      RunEscalates(c, s, rx, arrivals[..n], base);
      var (s', rx') := RunFrames(c, s, rx, arrivals[..n]);
      assert Managed(rx') == Managed(rx);
      FrameEscalates(c, s', rx', arrivals[n], base);
    }
  }

  /**
   From a clean fault state, whatever frames arrive: no count exceeds the
   limit of five, at most one PDU reaches it, the ECU is locked out exactly
   when one has, and with n managed PDUs at most 4n + 1 failures are logged.
   */
  lemma BoundedEscalation(c: Config, s: State, rx: Receiver, arrivals: seq<Arrival>)
    requires Clean(s.guard)
    ensures var g := RunFrames(c, s, rx, arrivals).0.guard;
            && (forall p :: p in g.counts ==> g.counts[p] <= MAX_AUTH_FAILURES)
            && (forall p, q :: p in g.counts && q in g.counts && g.counts[p] == g.counts[q] == MAX_AUTH_FAILURES
                               ==> p == q)
            && (g.locked <==> exists p :: p in g.counts && g.counts[p] == MAX_AUTH_FAILURES)
            && CountEvents(g.events, AUTH_FAIL) - CountEvents(s.guard.events, AUTH_FAIL) <= 4 * |Managed(rx)| + 1
  {
    RunEscalates(c, s, rx, arrivals, CountEvents(s.guard.events, AUTH_FAIL));
    var g := RunFrames(c, s, rx, arrivals).0.guard;
    CardinalityBound(g.counts.Keys, Managed(rx));
    if g.locked {
      var p :| p in g.counts && g.counts[p] == MAX_AUTH_FAILURES && BelowLimit(g.counts - {p});
      forall q | q in g.counts && q != p
        ensures g.counts[q] < MAX_AUTH_FAILURES
      {
        assert q in g.counts - {p};
      }
      SumRemove(g.counts, p);
      SumBound(g.counts - {p}, 4);
      assert |g.counts - {p}| == |g.counts| - 1;
    } else {
      SumBound(g.counts, 4);
    }
  }

  /** What a locked-out receiver can still do: count rejections, one per arrival of a managed PDU. */
  ghost predicate Frozen(rx: Receiver, rx': Receiver, arrivals: seq<Arrival>) {
    && rx'.managed == rx.managed && rx'.handlers == rx.handlers
    && rx'.accepted == rx.accepted && rx'.delivered == rx.delivered
    && forall p :: Count(rx'.rejected, p)
                   == Count(rx.rejected, p) + if p in rx.managed then ArrivalsOf(arrivals, p) else 0
  }

  /**
   From a locked-out state, whatever arrives: the stack, the accepted counts
   and the deliveries stay as they are, and the rejected count of each managed
   PDU rises by exactly its arrivals.
   */
  lemma {:induction false} LockoutFreezes(c: Config, s: State, rx: Receiver, arrivals: seq<Arrival>)
    requires s.guard.ecu != NormalOperation
    ensures RunFrames(c, s, rx, arrivals).0 == s
    ensures Frozen(rx, RunFrames(c, s, rx, arrivals).1, arrivals)
  {
    if arrivals != [] {
      var n := |arrivals| - 1;
      LockoutFreezes(c, s, rx, arrivals[..n]);
      FrozenStep(c, s, rx, RunFrames(c, s, rx, arrivals[..n]).1, arrivals);
    }
  }

  lemma FrozenStep(c: Config, s: State, rx: Receiver, mid: Receiver, arrivals: seq<Arrival>)
    requires s.guard.ecu != NormalOperation
    requires arrivals != [] && Frozen(rx, mid, arrivals[..|arrivals| - 1])
    ensures var a := arrivals[|arrivals| - 1];
            var (s', rx', _) := OnFrame(c, s, mid, a.pduId, a.frame, a.material);
            s' == s && Frozen(rx, rx', arrivals)
  {}

  lemma {:induction false} CardinalityBound(a: set<string>, b: set<string>)
    requires a <= b
    ensures |a| <= |b|
  {
    if a != {} {
      var x :| x in a;
      CardinalityBound(a - {x}, b - {x});
    }
  }

  // ---------- one PDU's failures and another PDU's frames ----------

  /** An arrival for p leaves everything that q's verdicts depend on alone. */
  lemma ArrivalElsewhere(c: Config, s: State, rx: Receiver, a: Arrival, q: string)
    requires q in c.profiles && a.pduId != q && KeyPrivate(c, s, q)
    ensures var s' := OnFrame(c, s, rx, a.pduId, a.frame, a.material).0;
            SameFor(c, s, s', q) && KeyPrivate(c, s', q)
  {
    var op := ReceiveOp(a.pduId, a.frame, CanFd, a.material);
    PrivateElsewhere(c, s, op, q);
    StepIsolation(c, s, op, q);
    PrivateKept(c, s, op, q);
  }

  lemma {:induction false} ArrivalsElsewhere(c: Config, s: State, rx: Receiver, arrivals: seq<Arrival>, q: string)
    requires q in c.profiles && KeyPrivate(c, s, q)
    requires forall i :: 0 <= i < |arrivals| ==> arrivals[i].pduId != q
    ensures var (s', rx') := RunFrames(c, s, rx, arrivals);
            SameFor(c, s, s', q) && KeyPrivate(c, s', q) && rx'.managed == rx.managed
  {
    if arrivals != [] {
      var n := |arrivals| - 1;
      ArrivalsElsewhere(c, s, rx, arrivals[..n], q);
      var (mid, rxm) := RunFrames(c, s, rx, arrivals[..n]);
      ArrivalElsewhere(c, mid, rxm, arrivals[n], q);
    }
  }

  /**
   Through the ECU gate, whatever arrives for other PDUs: q's frames get the
   result they would have got before, unless the ECU has been locked out, and
   then every one of them is dropped.
   */
  lemma GateIsolation(c: Config, s: State, rx: Receiver, arrivals: seq<Arrival>, q: string,
                      frame: Bytes, material: Bytes)
    requires q in c.profiles && q in rx.managed && KeyPrivate(c, s, q) && s.guard.ecu == NormalOperation
    requires forall i :: 0 <= i < |arrivals| ==> arrivals[i].pduId != q
    ensures var (s', rx') := RunFrames(c, s, rx, arrivals);
            OnFrame(c, s', rx', q, frame, material).2
            == if s'.guard.ecu == NormalOperation then OnFrame(c, s, rx, q, frame, material).2 else Dropped
  {
    ArrivalsElsewhere(c, s, rx, arrivals, q);
    VerdictDetermined(c, s, RunFrames(c, s, rx, arrivals).0, q, frame, CanFd, material);
  }

  /** One arrival locks the ECU exactly when it is rejected and its PDU already has four failures. */
  lemma ArrivalLocks(c: Config, s: State, rx: Receiver, a: Arrival)
    requires a.pduId in rx.managed && s.guard.ecu == NormalOperation && !s.guard.locked
    ensures var (s', rx', r) := OnFrame(c, s, rx, a.pduId, a.frame, a.material);
            s'.guard.ecu != NormalOperation
            <==> r == Dropped && FailureCount(s.guard, a.pduId) + 1 >= MAX_AUTH_FAILURES
  {
    OtherwiseKept(c, s, a.pduId, a.frame, CanFd, a.material);
    var (s', r) := Receive(c, s, a.pduId, a.frame, CanFd, a.material);
    if r.Accepted? {
      AcceptedCommits(c, s, a.pduId, a.frame, CanFd, a.material);
    }
  }

  // ---------- the sender ----------

  /**
   One send, whatever its outcome: a frame that was built and is within the
   transport's limit goes onto the bus and moves the transmit count; otherwise bus
   and count are unchanged and the result says why. No send touches the store or the failure counts, and a
   locked-out sender sends nothing.
   */
  lemma SendAccounted(c: Config, s: State, tx: Sender, p: string, payload: Bytes, material: Bytes, slow: bool,
                      hasFd: bool)
    ensures var (s', tx', r) := SendSignal(c, s, tx, p, payload, material, slow, hasFd);
            && s'.store == s.store && s'.guard.counts == s.guard.counts && s'.guard.locked == s.guard.locked
            && (r == Unmanaged <==> p !in tx.managed)
            && (r == Suppressed <==> p in tx.managed && s.guard.ecu != NormalOperation)
            && (r == Unmanaged || r == Suppressed ==> s' == s)
            && (p in tx.managed && s.guard.ecu == NormalOperation ==>
                  s' == Transmit(c, s, p, payload, CanFd, material, slow).0.(bus := s'.bus))
            && (p in tx.managed && s.guard.ecu == NormalOperation ==>
                  match Transmit(c, s, p, payload, CanFd, material, slow).1
                  case Failed(fault) => r == SendFailed(fault)
                  case Sent(frame) => r == if |frame| <= (if hasFd then 64 else 8) then OnBus else TooLarge)
            && var sent := Transmit(c, s, p, payload, CanFd, material, slow).1;
               (if r == OnBus then
                  && sent.Sent? && s'.bus == Publish(s.bus, p, sent.frame)
                  && |sent.frame| <= (if hasFd then CAN_FD_MAX_PAYLOAD else CAN_MAX_PAYLOAD)
                  && tx' == tx.(txCount := tx.txCount[p := Count(tx.txCount, p) + 1])
                else s'.bus == s.bus && tx' == tx)
  {
    if p in tx.managed && s.guard.ecu == NormalOperation {
      TransmitKeepsStore(c, s, p, payload, CanFd, material, slow);
      DispatchAccounted(s.bus, tx, p, Transmit(c, s, p, payload, CanFd, material, slow).1, hasFd);
    }
  }

  lemma DispatchAccounted(bus: Bus, tx: Sender, p: string, sent: Transmitted, hasFd: bool)
    ensures var (bus', tx', r) := Dispatch(bus, tx, p, sent, hasFd);
            && r != Unmanaged && r != Suppressed
            && (match sent
                case Failed(fault) => r == SendFailed(fault)
                case Sent(frame) => r == if |frame| <= (if hasFd then 64 else 8) then OnBus else TooLarge)
            && (if r == OnBus then
                  && sent.Sent? && bus' == Publish(bus, p, sent.frame)
                  && |sent.frame| <= (if hasFd then CAN_FD_MAX_PAYLOAD else CAN_MAX_PAYLOAD)
                  && tx' == tx.(txCount := tx.txCount[p := Count(tx.txCount, p) + 1])
                else bus' == bus && tx' == tx)
  {}

  // ---------- n clean cycles ----------

  /** Both ECUs manage the PDU, the stack is operational for it on CAN FD, wire field and modulus are equally wide. */
  ghost predicate CycleReady(c: Config, net: Net, p: string, material: Bytes, m: nat, k: Bytes) {
    && p in net.tx.managed && p in net.rx.managed && p in net.rx.handlers
    && net.s.guard.ecu == NormalOperation
    && Operational(c, net.s, p, CanFd, material, c.freshnessLength, m, k)
    && 0 < c.freshnessLength + m && m <= 32 && 1 <= c.window <= Modulus(c)
  }

  /** One send: the frame for the next value is the PDU's latest on the bus. */
  lemma CycleSends(c: Config, net: Net, p: string, payload: Bytes, material: Bytes, m: nat, k: Bytes)
    requires CycleReady(c, net, p, material, m, k)
    requires |payload| + c.freshnessLength + m <= CAN_FD_MAX_PAYLOAD
    ensures var (s1, tx, r) := SendSignal(c, net.s, net.tx, p, payload, material, false, true);
            && r == OnBus
            && Latest(s1.bus, p).Some?
            && Carries(c, p, Latest(s1.bus, p).value, LastValid(net.s.store, p) + 1, payload, CanFd, c.freshnessLength,
                       m, k)
            && s1.store == net.s.store && s1.guard == net.s.guard
            && Operational(c, s1, p, CanFd, material, c.freshnessLength, m, k)
            && tx == net.tx.(txCount := Bump(net.tx.txCount, p))
  {
    TransmitSends(c, net.s, p, payload, CanFd, material, false, material, c.freshnessLength, m, k);
    PaddedLength(payload, CanFd);
  }

  /** The effect of one clean cycle between two states. */
  ghost predicate CleanStep(mid: Net, net': Net, p: string, payload: Bytes) {
    && LastValid(net'.s.store, p) == LastValid(mid.s.store, p) + 1
    && net'.s.guard == mid.s.guard
    && net'.tx == mid.tx.(txCount := Bump(mid.tx.txCount, p))
    && net'.rx == mid.rx.(accepted := Bump(mid.rx.accepted, p), delivered := mid.rx.delivered + [(p, payload)])
  }

  /** One reception of the frame for the next value: taken, delivered, counted, and ready for the next. */
  lemma CycleReceives(c: Config, s: State, rx: Receiver, p: string, frame: Bytes, payload: Bytes, material: Bytes,
                      m: nat, k: Bytes)
    requires p in rx.managed && p in rx.handlers && s.guard.ecu == NormalOperation
    requires Operational(c, s, p, CanFd, material, c.freshnessLength, m, k)
    requires 0 < c.freshnessLength + m && m <= 32 && 1 <= c.window <= Modulus(c)
    requires Carries(c, p, frame, LastValid(s.store, p) + 1, payload, CanFd, c.freshnessLength, m, k)
    ensures var (s', rx', _) := OnFrame(c, s, rx, p, frame, material);
            && LastValid(s'.store, p) == LastValid(s.store, p) + 1 && s'.guard == s.guard
            && Operational(c, s', p, CanFd, material, c.freshnessLength, m, k)
            && rx' == rx.(accepted := Bump(rx.accepted, p), delivered := rx.delivered + [(p, payload)])
  {
    NextFrameOutcome(c, s, p, frame, payload, CanFd, material, c.freshnessLength, m, k);
    ReceiveKeepsOperational(c, s, p, frame, CanFd, material, c.freshnessLength, m, k);
  }

  /** One cycle: sent, read back from the bus, accepted, delivered, counted once on each side; no failure. */
  lemma CycleOutcome(c: Config, net: Net, p: string, payload: Bytes, material: Bytes, m: nat, k: Bytes)
    requires CycleReady(c, net, p, material, m, k)
    requires |payload| + c.freshnessLength + m <= CAN_FD_MAX_PAYLOAD
    ensures var net' := Cycle(c, net, p, payload, material);
            CycleReady(c, net', p, material, m, k) && CleanStep(net, net', p, payload)
  {
    CycleSends(c, net, p, payload, material, m, k);
    var (s1, tx, _) := SendSignal(c, net.s, net.tx, p, payload, material, false, true);
    CycleReceives(c, s1, net.rx, p, Latest(s1.bus, p).value, payload, material, m, k);
  }

  function Deliveries(p: string, payloads: seq<Bytes>): (d: seq<(string, Bytes)>)
    ensures |d| == |payloads|
    ensures forall i :: 0 <= i < |d| ==> d[i] == (p, payloads[i])
  {
    seq(|payloads|, i requires 0 <= i < |payloads| => (p, payloads[i]))
  }

  /** What n clean cycles have done between two states. */
  ghost predicate CleanSince(net: Net, net': Net, p: string, payloads: seq<Bytes>) {
    && LastValid(net'.s.store, p) == LastValid(net.s.store, p) + |payloads|
    && Count(net'.tx.txCount, p) == Count(net.tx.txCount, p) + |payloads|
    && Count(net'.rx.accepted, p) == Count(net.rx.accepted, p) + |payloads|
    && net'.rx.rejected == net.rx.rejected
    && net'.rx.delivered == net.rx.delivered + Deliveries(p, payloads)
    && net'.s.guard == net.s.guard
  }

  lemma CleanCompose(net: Net, mid: Net, net': Net, p: string, payloads: seq<Bytes>)
    requires payloads != []
    requires CleanSince(net, mid, p, payloads[..|payloads| - 1]) && CleanStep(mid, net', p, payloads[|payloads| - 1])
    ensures CleanSince(net, net', p, payloads)
  {
    var n := |payloads| - 1;
    assert Deliveries(p, payloads) == Deliveries(p, payloads[..n]) + [(p, payloads[n])];
  }

  /**
   n cycles of send, read the bus and receive deliver the n payloads in order,
   raise the last valid value and both counters by n, and leave the fault
   state untouched.
   */
  lemma {:induction false} CleanCycles(c: Config, net: Net, p: string, payloads: seq<Bytes>, material: Bytes,
                                       m: nat, k: Bytes)
    requires CycleReady(c, net, p, material, m, k)
    requires forall i :: 0 <= i < |payloads| ==> |payloads[i]| + c.freshnessLength + m <= CAN_FD_MAX_PAYLOAD
    ensures CycleReady(c, Cycles(c, net, p, payloads, material), p, material, m, k)
    ensures CleanSince(net, Cycles(c, net, p, payloads, material), p, payloads)
  {
    if payloads != [] {
      var n := |payloads| - 1;
      CleanCycles(c, net, p, payloads[..n], material, m, k);
      var mid := Cycles(c, net, p, payloads[..n], material);
      CycleOutcome(c, mid, p, payloads[n], material, m, k);
      CleanCompose(net, mid, Cycle(c, mid, p, payloads[n], material), p, payloads);
    }
  }
}
