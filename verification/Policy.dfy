/** Fault counting, lockout policy, ECU state and the diagnostic event history. */
module Policy {

  datatype EcuStateValue = NormalOperation | SecurityViolationLockout | BootBlocked

  datatype Severity = Info | Warning | Critical

  datatype DemEvent = DemEvent(
    eventId: string, severity: Severity, description: string, swrRef: string, data: map<string, string>)

  datatype RejectionReason = MacMismatch | FreshnessOutOfWindow | MalformedStructure

  datatype FailureCategory = Auth | FreshnessFailure | Crypto

  const MAX_AUTH_FAILURES := 5

  const AUTH_FAIL := "SECOC_AUTH_FAIL"
  const SAFE_STATE_ENTERED := "SAFE_STATE_ENTERED"
  const ECU_RESET := "ECU_RESET"
  const WCET_EXCEEDED := "WCET_EXCEEDED"

  function ReasonText(reason: RejectionReason): string {
    match reason
    case MacMismatch => "MAC_MISMATCH"
    case FreshnessOutOfWindow => "FRESHNESS_OUT_OF_WINDOW"
    case MalformedStructure => "MALFORMED_STRUCTURE"
  }

  function Logged(severity: Severity, eventId: string, swrRef: string): DemEvent {
    DemEvent(eventId, severity, eventId, swrRef, map[])
  }

  /** All three reasons share one classification. */
  function RejectionEvent(pduId: string, reason: RejectionReason): DemEvent {
    DemEvent(AUTH_FAIL, Critical, "Rejected pdu_id=" + pduId + ": " + ReasonText(reason), "", map["pdu_id" := pduId])
  }

  /** The logged event tells which PDU was rejected and why. */
  lemma RejectionIdentified(p: string, r: RejectionReason, q: string, t: RejectionReason)
    ensures RejectionEvent(p, r) == RejectionEvent(q, t) <==> p == q && r == t
  {
    if RejectionEvent(p, r) == RejectionEvent(q, t) {
      assert RejectionEvent(p, r).data["pdu_id"] == RejectionEvent(q, t).data["pdu_id"];
      var head := "Rejected pdu_id=" + p + ": ";
      assert RejectionEvent(p, r).description[|head|..] == ReasonText(r);
      assert RejectionEvent(q, t).description[|head|..] == ReasonText(t);
      assert |ReasonText(MacMismatch)| == 12 && |ReasonText(FreshnessOutOfWindow)| == 23
             && |ReasonText(MalformedStructure)| == 19;
    }
  }

  /** The state the fault manager, policy engine, ECU and event log share. */
  datatype Guard = Guard(counts: map<string, nat>, locked: bool, ecu: EcuStateValue, events: seq<DemEvent>)

  const FRESH_GUARD := Guard(map[], false, NormalOperation, [])

  function FailureCount(g: Guard, pduId: string): nat {
    if pduId in g.counts then g.counts[pduId] else 0
  }

  function LogEvent(g: Guard, e: DemEvent): Guard {
    g.(events := g.events + [e])
  }

  function Evaluate(g: Guard, failures: nat): Guard {
    if g.locked || failures < MAX_AUTH_FAILURES then g
    else LogEvent(g.(locked := true, ecu := SecurityViolationLockout), Logged(Critical, SAFE_STATE_ENTERED, "SR-14"))
  }

  function RecordFailure(g: Guard, pduId: string, category: FailureCategory): Guard {
    var n := FailureCount(g, pduId) + 1;
    var g' := g.(counts := g.counts[pduId := n]);
    if category.Auth? then Evaluate(g', n) else g'
  }

  /** _reject: log the reason, then count an authentication failure. */
  function Reject(g: Guard, pduId: string, reason: RejectionReason): Guard {
    RecordFailure(LogEvent(g, RejectionEvent(pduId, reason)), pduId, Auth)
  }

  /** SecOC.reset: unlocks but keeps the counts. */
  function Reset(g: Guard): Guard {
    g.(locked := false, ecu := NormalOperation)
  }

  /** AppState.reset_ecu: unlocks, forgets the counts and logs the reset. */
  function ResetEcu(g: Guard): Guard {
    LogEvent(g.(locked := false, ecu := NormalOperation, counts := map[]), Logged(Info, ECU_RESET, "SecOC-RESET"))
  }

  // ---------- the objects ----------

  class EcuState {
    var current: EcuStateValue

    constructor ()
      ensures current == NormalOperation
    {
      current := NormalOperation;
    }

    method Transition(state: EcuStateValue)
      modifies this
      ensures current == state
    {
      current := state;
    }
  }

  class Dem {
    var events: seq<DemEvent>

    constructor ()
      ensures events == []
    {
      events := [];
    }

    method Log(e: DemEvent)
      modifies this
      ensures events == old(events) + [e]
    {
      events := events + [e];
    }
  }

  class SecurityPolicyEngine {
    const ecu: EcuState
    const dem: Dem
    var lockedOut: bool

    constructor (ecu: EcuState, dem: Dem)
      ensures this.ecu == ecu && this.dem == dem && !lockedOut
    {
      this.ecu := ecu;
      this.dem := dem;
      lockedOut := false;
    }

    function View(counts: map<string, nat>): Guard
      reads this, ecu, dem
    {
      Guard(counts, lockedOut, ecu.current, dem.events)
    }

    method EvaluateFailures(failures: nat)
      modifies this, ecu, dem
      ensures forall counts :: View(counts) == Evaluate(old(View(counts)), failures)
    {
      if lockedOut {
        return;
      }
      if failures >= MAX_AUTH_FAILURES {
        lockedOut := true;
        ecu.Transition(SecurityViolationLockout);
        dem.Log(Logged(Critical, SAFE_STATE_ENTERED, "SR-14"));
      }
    }

    method ClearLockout()
      modifies this, ecu
      ensures !lockedOut && ecu.current == NormalOperation
    {
      lockedOut := false;
      ecu.Transition(NormalOperation);
    }
  }

  class FaultManager {
    const policy: SecurityPolicyEngine
    var counts: map<string, nat>

    constructor (policy: SecurityPolicyEngine)
      ensures this.policy == policy && counts == map[]
    {
      this.policy := policy;
      counts := map[];
    }

    function View(): Guard
      reads this, policy, policy.ecu, policy.dem
    {
      policy.View(counts)
    }

    method Record(pduId: string, category: FailureCategory) returns (n: nat)
      modifies this, policy, policy.ecu, policy.dem
      ensures View() == RecordFailure(old(View()), pduId, category)
      ensures n == FailureCount(View(), pduId) == FailureCount(old(View()), pduId) + 1
    {
      n := (if pduId in counts then counts[pduId] else 0) + 1;
      counts := counts[pduId := n];
      if category.Auth? {
        policy.EvaluateFailures(n);
      }
    }
  }

  // ---------- whole runs ----------

  datatype GuardOp =
    | RejectOp(pduId: string, reason: RejectionReason)
    | FailureOp(pduId: string, category: FailureCategory)
    | ResetOp
    | ResetEcuOp
    | EventOp(event: DemEvent)

  function GuardStep(g: Guard, op: GuardOp): Guard {
    match op
    case RejectOp(p, reason) => Reject(g, p, reason)
    case FailureOp(p, category) => RecordFailure(g, p, category)
    case ResetOp => Reset(g)
    case ResetEcuOp => ResetEcu(g)
    case EventOp(e) => LogEvent(g, e)
  }

  function GuardRun(g: Guard, ops: seq<GuardOp>): Guard {
    if ops == [] then g else GuardStep(GuardRun(g, ops[..|ops| - 1]), ops[|ops| - 1])
  }

  function CountEvents(events: seq<DemEvent>, eventId: string): nat {
    if events == [] then 0
    else CountEvents(events[..|events| - 1], eventId) + if events[|events| - 1].eventId == eventId then 1 else 0
  }

  lemma CountAppend(events: seq<DemEvent>, e: DemEvent, eventId: string)
    ensures CountEvents(events + [e], eventId)
         == CountEvents(events, eventId) + if e.eventId == eventId then 1 else 0
  {
    assert (events + [e])[..|events|] == events;
  }

  /** The resets of a run that found the ECU locked out. */
  function Releases(g: Guard, ops: seq<GuardOp>): nat {
    if ops == [] then 0
    else
      var n := |ops| - 1;
      Releases(g, ops[..n])
      + if (ops[n].ResetOp? || ops[n].ResetEcuOp?) && GuardRun(g, ops[..n]).locked then 1 else 0
  }

  ghost predicate SomeCountAtLimit(g: Guard) {
    exists p :: p in g.counts && g.counts[p] >= MAX_AUTH_FAILURES
  }

  /** Only the source's own safe-state event uses that code. */
  ghost predicate NoForeignSafeState(ops: seq<GuardOp>) {
    forall i :: 0 <= i < |ops| && ops[i].EventOp? ==> ops[i].event.eventId != SAFE_STATE_ENTERED
  }

  /** The flag and the ECU state say the same, and a lockout has a PDU at the limit. */
  ghost predicate LockoutConsistent(g: Guard) {
    && (g.locked <==> g.ecu == SecurityViolationLockout)
    && (!g.locked <==> g.ecu == NormalOperation)
    && (g.locked ==> SomeCountAtLimit(g))
  }

  /** Unlocked, in normal operation and with no failure counted, whatever has been logged before. */
  predicate Clean(g: Guard) {
    !g.locked && g.ecu == NormalOperation && g.counts == map[]
  }

  function LockedNow(g: Guard): nat {
    if g.locked then 1 else 0
  }

  /**
   From a clean state, after any run: the lockout flag and the ECU state say
   the same; a lockout has a PDU at the limit; and safe-state entries are the
   resets that found the ECU locked, plus one if it is locked now.
   */
  lemma {:induction false} LockoutInvariant(start: Guard, ops: seq<GuardOp>)
    requires Clean(start) && NoForeignSafeState(ops)
    ensures var g := GuardRun(start, ops);
            && (g.locked <==> g.ecu == SecurityViolationLockout)
            && (!g.locked <==> g.ecu == NormalOperation)
            && (g.locked ==> SomeCountAtLimit(g))
            && CountEvents(g.events, SAFE_STATE_ENTERED)
               == CountEvents(start.events, SAFE_STATE_ENTERED) + Releases(start, ops) + LockedNow(g)
  {
    if ops != [] {
      var n := |ops| - 1;
      LockoutInvariant(start, ops[..n]);
      StepLockout(GuardRun(start, ops[..n]), ops[n]);
    }
  }

  lemma StepLockout(g: Guard, op: GuardOp)
    requires LockoutConsistent(g)
    requires op.EventOp? ==> op.event.eventId != SAFE_STATE_ENTERED
    ensures var g' := GuardStep(g, op);
            && LockoutConsistent(g')
            && CountEvents(g'.events, SAFE_STATE_ENTERED) + LockedNow(g)
               == CountEvents(g.events, SAFE_STATE_ENTERED) + LockedNow(g')
                  + if (op.ResetOp? || op.ResetEcuOp?) && g.locked then 1 else 0
  {
    match op
    case RejectOp(p, reason) =>
      EventLockout(g, RejectionEvent(p, reason));
      FailureLockout(LogEvent(g, RejectionEvent(p, reason)), p, Auth);
    case FailureOp(p, category) =>
      FailureLockout(g, p, category);
    case ResetOp =>
    case ResetEcuOp =>
      CountAppend(g.events, Logged(Info, ECU_RESET, "SecOC-RESET"), SAFE_STATE_ENTERED);
    case EventOp(e) =>
      EventLockout(g, e);
  }

  lemma EventLockout(g: Guard, e: DemEvent)
    requires LockoutConsistent(g) && e.eventId != SAFE_STATE_ENTERED
    ensures LockoutConsistent(LogEvent(g, e))
    ensures CountEvents(LogEvent(g, e).events, SAFE_STATE_ENTERED) == CountEvents(g.events, SAFE_STATE_ENTERED)
  {
    CountAppend(g.events, e, SAFE_STATE_ENTERED);
    assert LogEvent(g, e).counts == g.counts;
  }

  lemma FailureLockout(g: Guard, p: string, category: FailureCategory)
    requires LockoutConsistent(g)
    ensures var g' := RecordFailure(g, p, category);
            && LockoutConsistent(g')
            && CountEvents(g'.events, SAFE_STATE_ENTERED) + LockedNow(g)
               == CountEvents(g.events, SAFE_STATE_ENTERED) + LockedNow(g')
  {
    CountAppend(g.events, Logged(Critical, SAFE_STATE_ENTERED, "SR-14"), SAFE_STATE_ENTERED);
    LimitKept(g, p);
    var g' := RecordFailure(g, p, category);
    assert g'.counts == g.counts[p := FailureCount(g, p) + 1];
  }

  /** Counting one more failure: some count is at the limit after it iff one was before or this one got there. */
  lemma LimitKept(g: Guard, p: string)
    ensures var g' := g.(counts := g.counts[p := FailureCount(g, p) + 1]);
            SomeCountAtLimit(g') <==> SomeCountAtLimit(g) || FailureCount(g, p) + 1 >= MAX_AUTH_FAILURES
  {
    var g' := g.(counts := g.counts[p := FailureCount(g, p) + 1]);
    if q :| q in g.counts && g.counts[q] >= MAX_AUTH_FAILURES {
      assert q in g'.counts && g'.counts[q] >= MAX_AUTH_FAILURES;
    }
    if FailureCount(g, p) + 1 >= MAX_AUTH_FAILURES {
      assert p in g'.counts;
    }
    if q :| q in g'.counts && g'.counts[q] >= MAX_AUTH_FAILURES {
      assert q == p || q in g.counts;
    }
  }

  // ---------- when a PDU at the limit does not mean lockout ----------

  /** Not locked although some PDU is at the limit. */
  ghost predicate Stale(g: Guard) {
    !g.locked && SomeCountAtLimit(g)
  }

  /** The reset that keeps the counts, taken with a PDU at the limit; or a fifth failure that is not evaluated. */
  ghost predicate Breaks(g: Guard, op: GuardOp) {
    || (op.ResetOp? && SomeCountAtLimit(g))
    || (op.FailureOp? && !op.category.Auth? && !g.locked && FailureCount(g, op.pduId) + 1 >= MAX_AUTH_FAILURES)
  }

  /** The reset that forgets the counts, or an evaluated failure of a PDU that already has four. */
  predicate Heals(g: Guard, op: GuardOp) {
    || op.ResetEcuOp?
    || ((op.RejectOp? || (op.FailureOp? && op.category.Auth?)) && FailureCount(g, op.pduId) + 1 >= MAX_AUTH_FAILURES)
  }

  /** One operation: what makes the state stale, and what ends it. */
  lemma StaleStep(g: Guard, op: GuardOp)
    requires g.locked ==> SomeCountAtLimit(g)
    ensures var g' := GuardStep(g, op);
            && (g'.locked ==> SomeCountAtLimit(g'))
            && (Stale(g') <==> Breaks(g, op) || (Stale(g) && !Heals(g, op)))
  {
    match op
    case RejectOp(p, reason) =>
      FailureStale(LogEvent(g, RejectionEvent(p, reason)), p, Auth);
      assert LogEvent(g, RejectionEvent(p, reason)).counts == g.counts;
    case FailureOp(p, category) =>
      FailureStale(g, p, category);
    case ResetOp =>
      assert Reset(g).counts == g.counts;
    case ResetEcuOp =>
    case EventOp(e) =>
      assert LogEvent(g, e).counts == g.counts;
  }

  lemma FailureStale(g: Guard, p: string, category: FailureCategory)
    requires g.locked ==> SomeCountAtLimit(g)
    ensures var g' := RecordFailure(g, p, category);
            && (g'.locked ==> SomeCountAtLimit(g'))
            && (Stale(g') <==>
                  if category.Auth? then Stale(g) && FailureCount(g, p) + 1 < MAX_AUTH_FAILURES
                  else !g.locked && (SomeCountAtLimit(g) || FailureCount(g, p) + 1 >= MAX_AUTH_FAILURES))
  {
    LimitKept(g, p);
    var g' := RecordFailure(g, p, category);
    assert g'.counts == g.counts[p := FailureCount(g, p) + 1];
  }

  /** What an operation of a run does to a condition: bring it about, end it, or neither. */
  datatype Mark = Sets | Clears | Keeps

  /** The condition was brought about and not ended since. */
  ghost predicate LeftSet(marks: seq<Mark>) {
    exists i :: 0 <= i < |marks| && marks[i].Sets? && forall j :: i < j < |marks| ==> !marks[j].Clears?
  }

  lemma LeftSetStep(marks: seq<Mark>, m: Mark)
    ensures LeftSet(marks + [m]) <==> m.Sets? || (LeftSet(marks) && !m.Clears?)
  {
    var all, n := marks + [m], |marks|;
    if m.Sets? {
      assert all[n].Sets?;
    } else if i :| 0 <= i < n && marks[i].Sets? && forall j :: i < j < n ==> !marks[j].Clears? {
      assert all[i].Sets?;
      assert LeftSet(all) || m.Clears?;
    }
    if i :| 0 <= i <= n && all[i].Sets? && forall j :: i < j <= n ==> !all[j].Clears? {
      assert i < n ==> !all[n].Clears? && marks[i].Sets? && forall j :: i < j < n ==> marks[j] == all[j];
    }
  }

  ghost function StaleMark(g: Guard, op: GuardOp): Mark {
    if Breaks(g, op) then Sets else if Heals(g, op) then Clears else Keeps
  }

  /** The mark of each operation of the run, in the state that the operation found. */
  ghost function StaleMarks(start: Guard, ops: seq<GuardOp>): seq<Mark> {
    if ops == [] then []
    else
      var n := |ops| - 1;
      StaleMarks(start, ops[..n]) + [StaleMark(GuardRun(start, ops[..n]), ops[n])]
  }

  /**
   After any run from a clean state, "locked iff some PDU is at the limit"
   fails exactly when some operation broke it (a bare reset with a PDU at the
   limit, say) and no later one healed it (reset_ecu, or an evaluated failure
   of a PDU that had four already).
   */
  lemma {:induction false} LockedIffAtLimit(start: Guard, ops: seq<GuardOp>)
    requires Clean(start)
    ensures var g := GuardRun(start, ops);
            && (g.locked ==> SomeCountAtLimit(g))
            && ((g.locked <==> SomeCountAtLimit(g)) <==> !LeftSet(StaleMarks(start, ops)))
  {
    if ops != [] {
      var n := |ops| - 1;
      LockedIffAtLimit(start, ops[..n]);
      var g := GuardRun(start, ops[..n]);
      StaleStep(g, ops[n]);
      LeftSetStep(StaleMarks(start, ops[..n]), StaleMark(g, ops[n]));
    }
  }

  /** Such a run: five rejections and the bare reset end unlocked with the PDU still at the limit. */
  lemma BareResetKeepsCounts(p: string)
    ensures var r := RejectOp(p, MacMismatch);
            var g := GuardRun(FRESH_GUARD, [r, r, r, r, r, ResetOp]);
            !g.locked && g.ecu == NormalOperation && FailureCount(g, p) == MAX_AUTH_FAILURES
  {
    var r := RejectOp(p, MacMismatch);
    var ops := [r, r, r, r, r, ResetOp];
    assert ops[..5] == [r, r, r, r, r];
    assert [r, r, r, r, r][..4] == [r, r, r, r];
    assert [r, r, r, r][..3] == [r, r, r];
    assert [r, r, r][..2] == [r, r];
    assert [r, r][..1] == [r];
    assert [r][..0] == [];
    assert FailureCount(GuardRun(FRESH_GUARD, [r]), p) == 1;
    assert FailureCount(GuardRun(FRESH_GUARD, [r, r]), p) == 2;
    assert FailureCount(GuardRun(FRESH_GUARD, [r, r, r]), p) == 3;
    assert FailureCount(GuardRun(FRESH_GUARD, [r, r, r, r]), p) == 4;
  }

  /** After any unlocked state, a rejection locks the ECU exactly when it is that PDU's fifth since its count began. */
  lemma RejectionLocks(g: Guard, p: string, reason: RejectionReason)
    requires !g.locked
    ensures Reject(g, p, reason).locked <==> FailureCount(g, p) + 1 >= MAX_AUTH_FAILURES
    ensures forall q :: q != p ==> FailureCount(Reject(g, p, reason), q) == FailureCount(g, q)
  {}
}
