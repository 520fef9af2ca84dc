/** The fault state over whole runs of the stack, as runs of the fault state's own operations. */
module StackLockout {
  import opened Bytes
  import opened SecurityProfile
  import opened Policy
  import opened SecOCModel
  import opened SecOCProtocol

  /** What an operation of the stack does to the fault state, in the fault state's own operations. */
  function GuardOps(c: Config, s: State, op: Op): seq<GuardOp> {
    match op
    case ReceiveOp(p, frame, transport, material) =>
      (match Receive(c, s, p, frame, transport, material).1
       case Rejected(reason) => [RejectOp(p, reason)]
       case _ => [])
    case TransmitOp(p, authentic, transport, material, slow) =>
      if slow && Transmit(c, s, p, authentic, transport, material, slow).1.Sent?
      then [EventOp(Logged(Warning, WCET_EXCEEDED, "SW-SecOC-08"))] else []
    case ResetOp => [GuardOp.ResetOp]
    case ResetEcuOp => [GuardOp.ResetEcuOp]
    case _ => []
  }

  function History(c: Config, s: State, ops: seq<Op>): seq<GuardOp> {
    if ops == [] then []
    else
      var n := |ops| - 1;
      History(c, s, ops[..n]) + GuardOps(c, Run(c, s, ops[..n]), ops[n])
  }

  lemma GuardOfTransmit(c: Config, s: State, p: string, authentic: Bytes, transport: Transport, material: Bytes,
                        slow: bool)
    ensures var (s', r) := Transmit(c, s, p, authentic, transport, material, slow);
            s'.guard == if slow && r.Sent? then LogEvent(s.guard, Logged(Warning, WCET_EXCEEDED, "SW-SecOC-08"))
                        else s.guard
  {}

  lemma GuardOfStep(c: Config, s: State, op: Op)
    ensures var gs := GuardOps(c, s, op);
            && |gs| <= 1
            && Step(c, s, op).guard == if gs == [] then s.guard else GuardStep(s.guard, gs[0])
  {
    match op
    case ReceiveOp(p, frame, transport, material) =>
      OtherwiseKept(c, s, p, frame, transport, material);
      if Receive(c, s, p, frame, transport, material).1.Accepted? {
        AcceptedCommits(c, s, p, frame, transport, material);
      }
    case TransmitOp(p, authentic, transport, material, slow) =>
      GuardOfTransmit(c, s, p, authentic, transport, material, slow);
    case _ =>
  }

  /** The fault state of a run is the run of its history. */
  lemma {:induction false} GuardOfRun(c: Config, s: State, ops: seq<Op>)
    ensures Run(c, s, ops).guard == GuardRun(s.guard, History(c, s, ops))
  {
    if ops != [] {
      var n := |ops| - 1;
      GuardOfRun(c, s, ops[..n]);
      var mid := Run(c, s, ops[..n]);
      GuardOfStep(c, mid, ops[n]);
      var h, gs := History(c, s, ops[..n]), GuardOps(c, mid, ops[n]);
      if gs == [] {
        assert h + gs == h;
      } else {
        assert (h + gs)[..|h + gs| - 1] == h && (h + gs)[|h + gs| - 1] == gs[0];
      }
    }
  }

  lemma {:induction false} HistoryIsOwn(c: Config, s: State, ops: seq<Op>)
    ensures NoForeignSafeState(History(c, s, ops))
  {
    assert WCET_EXCEEDED[0] == 'W' && SAFE_STATE_ENTERED[0] == 'S';
    if ops != [] {
      HistoryIsOwn(c, s, ops[..|ops| - 1]);
    }
  }

  /** The operation is a frame of the PDU that is rejected. */
  predicate RejectsFor(c: Config, s: State, op: Op, p: string) {
    op.ReceiveOp? && op.pduId == p && Receive(c, s, p, op.frame, op.transport, op.material).1.Rejected?
  }

  // ---------- when a PDU at the limit does not mean lockout ----------

  /** The reset that keeps the counts, taken with a PDU at the limit, breaks "locked iff some PDU is at the limit". */
  ghost predicate BreaksLimit(s: State, op: Op) {
    op.ResetOp? && SomeCountAtLimit(s.guard)
  }

  /** The reset that forgets the counts, or a rejected frame of a PDU with four failures already, restores it. */
  predicate HealsLimit(c: Config, s: State, op: Op) {
    op.ResetEcuOp? || (op.ReceiveOp? && RejectsFor(c, s, op, op.pduId)
                       && FailureCount(s.guard, op.pduId) + 1 >= MAX_AUTH_FAILURES)
  }

  ghost function LimitMark(c: Config, s: State, op: Op): Mark {
    if BreaksLimit(s, op) then Sets else if HealsLimit(c, s, op) then Clears else Keeps
  }

  /** The mark of each operation of the run, in the state that the operation found. */
  ghost function LimitMarks(c: Config, s: State, ops: seq<Op>): seq<Mark> {
    if ops == [] then []
    else
      var n := |ops| - 1;
      LimitMarks(c, s, ops[..n]) + [LimitMark(c, Run(c, s, ops[..n]), ops[n])]
  }

  lemma StaleStackStep(c: Config, s: State, op: Op)
    requires s.guard.locked ==> SomeCountAtLimit(s.guard)
    ensures var g := Step(c, s, op).guard;
            && (g.locked ==> SomeCountAtLimit(g))
            && (Stale(g) <==> BreaksLimit(s, op) || (Stale(s.guard) && !HealsLimit(c, s, op)))
  {
    GuardOfStep(c, s, op);
    var gs := GuardOps(c, s, op);
    if gs != [] {
      StaleStep(s.guard, gs[0]);
    }
  }

  lemma {:induction false} StackStale(c: Config, s: State, ops: seq<Op>)
    requires Clean(s.guard)
    ensures var g := Run(c, s, ops).guard;
            && (g.locked ==> SomeCountAtLimit(g))
            && (Stale(g) <==> LeftSet(LimitMarks(c, s, ops)))
  {
    if ops != [] {
      var n := |ops| - 1;
      StackStale(c, s, ops[..n]);
      var mid := Run(c, s, ops[..n]);
      StaleStackStep(c, mid, ops[n]);
      LeftSetStep(LimitMarks(c, s, ops[..n]), LimitMark(c, mid, ops[n]));
    }
  }

  /**
   Over any run of the stack from a clean fault state: the lockout flag and the
   ECU state say the same; a lockout has a PDU at the limit; a PDU at the limit
   means lockout unless the reset that keeps the counts was taken with a PDU at
   the limit and neither reset_ecu nor a rejected frame of a PDU with four
   failures followed; and the safe-state entries logged are the resets that
   found the ECU locked, plus one if it is locked now.
   */
  lemma StackLockout(c: Config, s: State, ops: seq<Op>)
    requires Clean(s.guard)
    ensures var g := Run(c, s, ops).guard;
            && (g.locked <==> g.ecu == SecurityViolationLockout)
            && (!g.locked <==> g.ecu == NormalOperation)
            && (g.locked ==> SomeCountAtLimit(g))
            && ((g.locked <==> SomeCountAtLimit(g)) <==> !LeftSet(LimitMarks(c, s, ops)))
            && CountEvents(g.events, SAFE_STATE_ENTERED)
               == CountEvents(s.guard.events, SAFE_STATE_ENTERED) + Releases(s.guard, History(c, s, ops)) + LockedNow(g)
  {
    GuardOfRun(c, s, ops);
    HistoryIsOwn(c, s, ops);
    LockoutInvariant(s.guard, History(c, s, ops));
    StackStale(c, s, ops);
  }

  // ---------- what the counts count ----------

  /** The PDU's rejected frames since the last reset_ecu. */
  function RejectionsSinceReset(c: Config, s: State, ops: seq<Op>, p: string): nat {
    if ops == [] then 0
    else
      var n := |ops| - 1;
      if ops[n].ResetEcuOp? then 0
      else RejectionsSinceReset(c, s, ops[..n], p) + if RejectsFor(c, Run(c, s, ops[..n]), ops[n], p) then 1 else 0
  }

  /** The PDU's consecutive rejected frames: those since the last reset_ecu and its last accepted frame. */
  function ConsecutiveRejections(c: Config, s: State, ops: seq<Op>, p: string): nat {
    if ops == [] then 0
    else
      var n := |ops| - 1;
      var mid := Run(c, s, ops[..n]);
      if ops[n].ResetEcuOp? || AcceptsFor(c, mid, ops[n], p) then 0
      else ConsecutiveRejections(c, s, ops[..n], p) + if RejectsFor(c, mid, ops[n], p) then 1 else 0
  }

  lemma CountStep(c: Config, s: State, op: Op, p: string)
    ensures FailureCount(Step(c, s, op).guard, p)
         == if op.ResetEcuOp? then 0 else FailureCount(s.guard, p) + if RejectsFor(c, s, op, p) then 1 else 0
  {
    GuardOfStep(c, s, op);
  }

  /** The count is cumulative: whatever was accepted in between, it is the rejections since the last reset_ecu. */
  lemma {:induction false} CountIsCumulative(c: Config, s: State, ops: seq<Op>, p: string)
    requires Clean(s.guard)
    ensures FailureCount(Run(c, s, ops).guard, p) == RejectionsSinceReset(c, s, ops, p)
  {
    if ops != [] {
      var n := |ops| - 1;
      CountIsCumulative(c, s, ops[..n], p);
      CountStep(c, Run(c, s, ops[..n]), ops[n], p);
    }
  }

  /** So a rejection locks an unlocked ECU exactly when it is at least the PDU's fifth since the last reset_ecu. */
  lemma FifthRejectionLocks(c: Config, s: State, ops: seq<Op>, op: Op, p: string)
    requires Clean(s.guard) && !Run(c, s, ops).guard.locked
    requires RejectsFor(c, Run(c, s, ops), op, p)
    ensures Step(c, Run(c, s, ops), op).guard.locked
       <==> RejectionsSinceReset(c, s, ops, p) + 1 >= MAX_AUTH_FAILURES
  {
    CountIsCumulative(c, s, ops, p);
    GuardOfStep(c, Run(c, s, ops), op);
    var reason := Receive(c, Run(c, s, ops), p, op.frame, op.transport, op.material).1.reason;
    RejectionLocks(Run(c, s, ops).guard, p, reason);
  }

  /** An acceptance that finds failures counted makes the count differ from the consecutive failures. */
  ghost function ForgivenessMark(c: Config, s: State, op: Op, p: string): Mark {
    if AcceptsFor(c, s, op, p) && FailureCount(s.guard, p) > 0 then Sets
    else if op.ResetEcuOp? then Clears else Keeps
  }

  ghost function ForgivenessMarks(c: Config, s: State, ops: seq<Op>, p: string): seq<Mark> {
    if ops == [] then []
    else
      var n := |ops| - 1;
      ForgivenessMarks(c, s, ops[..n], p) + [ForgivenessMark(c, Run(c, s, ops[..n]), ops[n], p)]
  }

  /**
   The count is the number of consecutive failures, as documented, exactly
   while no frame of the PDU has been accepted with failures counted since the
   last reset_ecu; otherwise it is larger.
   */
  lemma {:induction false} ConsecutiveOrCumulative(c: Config, s: State, ops: seq<Op>, p: string)
    requires Clean(s.guard)
    ensures FailureCount(Run(c, s, ops).guard, p) >= ConsecutiveRejections(c, s, ops, p)
    ensures FailureCount(Run(c, s, ops).guard, p) == ConsecutiveRejections(c, s, ops, p)
       <==> !LeftSet(ForgivenessMarks(c, s, ops, p))
  {
    if ops != [] {
      var n := |ops| - 1;
      ConsecutiveOrCumulative(c, s, ops[..n], p);
      var mid := Run(c, s, ops[..n]);
      CountStep(c, mid, ops[n], p);
      LeftSetStep(ForgivenessMarks(c, s, ops[..n], p), ForgivenessMark(c, mid, ops[n], p));
    }
  }
}
