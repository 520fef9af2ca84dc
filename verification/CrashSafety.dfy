/**
 Process crashes inside the commit of an accepted frame: the commit as single
 steps, what a reboot finds after each, and at-most-once delivery over runs.
 */
module CrashSafety {
  import opened Arith
  import opened Bytes
  import opened SecurityProfile
  import opened PduManager
  import opened NvmCodec
  import opened Nvm
  import opened Keys
  import opened Policy
  import opened CanBus
  import opened Freshness
  import opened SecOCModel
  import opened SecOCProtocol
  import opened SecOCRuns

  /** What a crash can separate: memory, the file, the temporary file, and the bus. */
  datatype Device = Device(mem: Store, file: File, tmp: File, bus: Bus)

  const STEPS := 9

  /**
   The steps between the last check and the return of receive_secured: two
   writes, each a memory update, a temporary file that is partly and then fully
   written, and a rename; then the publication. `torn` is whatever a partly
   written temporary file holds.
   */
  function CommitStep(d: Device, i: nat, p: string, v: int, frame: Bytes, torn: File): Device
    requires i < STEPS
  {
    if i == 0 then d.(mem := d.mem[LastValidName(p) := Int(v)])
    else if i == 4 then d.(mem := d.mem[WindowName(p) := List([])])
    else if i == 1 || i == 5 then d.(tmp := torn)
    else if i == 2 || i == 6 then d.(tmp := Image(d.mem))
    else if i == 3 || i == 7 then d.(file := d.tmp, tmp := Absent)
    else d.(bus := Publish(d.bus, p, frame))
  }

  function CommitSteps(d: Device, n: nat, p: string, v: int, frame: Bytes, torn: File): Device
    requires n <= STEPS
  {
    if n == 0 then d else CommitStep(CommitSteps(d, n - 1, p, v, frame, torn), n - 1, p, v, frame, torn)
  }

  /** The store a reboot finds after n steps of the commit. */
  function Survives(store: Store, n: nat, p: string, v: int): Store {
    if n < 4 then store
    else if n < 8 then store[LastValidName(p) := Int(v)]
    else Commit(store, p, v)
  }

  /** A store that can be flushed and read back. */
  ghost predicate Storable(store: Store) {
    Untagged(Dict(store))
  }

  lemma UpdateStorable(store: Store, name: string, value: Value)
    requires Storable(store) && Untagged(value) && name != MARKER
    ensures Storable(store[name := value])
  {
    assert name in store[name := value];
  }

  lemma CommitStorable(store: Store, p: string, v: int)
    requires Storable(store)
    ensures Storable(store[LastValidName(p) := Int(v)]) && Storable(Commit(store, p, v))
  {
    NamesDisjoint(p, p);
    assert MARKER != LastValidName(p) && MARKER != WindowName(p);
    UpdateStorable(store, LastValidName(p), Int(v));
    UpdateStorable(store[LastValidName(p) := Int(v)], WindowName(p), List([]));
  }

  /** The device after n steps, written out. */
  lemma {:induction false} StepsAre(d: Device, n: nat, p: string, v: int, frame: Bytes, torn: File)
    requires n <= STEPS
    ensures var d' := CommitSteps(d, n, p, v, frame, torn);
            var half := d.mem[LastValidName(p) := Int(v)];
            && d'.mem == (if n < 1 then d.mem else if n < 5 then half else Commit(d.mem, p, v))
            && d'.file == (if n < 4 then d.file else if n < 8 then Image(half) else Image(Commit(d.mem, p, v)))
            && d'.bus == (if n < 9 then d.bus else Publish(d.bus, p, frame))
            && (n == 3 ==> d'.tmp == Image(half))
            && (n == 7 ==> d'.tmp == Image(Commit(d.mem, p, v)))
  {
    if n > 0 {
      StepsAre(d, n - 1, p, v, frame, torn);
    }
  }

  /**
   A crash after n steps: the rebooted store is the old one before the first
   rename and has the new value from then on; the frame is on the bus only
   after the last step, so never before its value survives a reboot; and no
   other PDU's value and no key record is affected.
   */
  lemma CrashOutcome(d: Device, n: nat, p: string, v: int, frame: Bytes, torn: File, q: string)
    requires n <= STEPS && LoadFile(d.file) == Object(d.mem) && Storable(d.mem)
    ensures var d' := CommitSteps(d, n, p, v, frame, torn);
            && LoadFile(d'.file) == Object(Survives(d.mem, n, p, v))
            && LastValid(Survives(d.mem, n, p, v), p) == (if n < 4 then LastValid(d.mem, p) else v)
            && (d'.bus != d.bus ==> n == STEPS)
            && (q != p ==> LastValid(Survives(d.mem, n, p, v), q) == LastValid(d.mem, q))
            && GetMetadata(Survives(d.mem, n, p, v), q) == GetMetadata(d.mem, q)
            && Storable(Survives(d.mem, n, p, v))
  {
    StepsAre(d, n, p, v, frame, torn);
    CommitStorable(d.mem, p, v);
    ReloadAfterFlush(d.mem[LastValidName(p) := Int(v)]);
    ReloadAfterFlush(Commit(d.mem, p, v));
    SurvivorReads(d.mem, n, p, v, q);
  }

  lemma SurvivorReads(store: Store, n: nat, p: string, v: int, q: string)
    ensures LastValid(Survives(store, n, p, v), p) == (if n < 4 then LastValid(store, p) else v)
    ensures q != p ==> LastValid(Survives(store, n, p, v), q) == LastValid(store, q)
    ensures GetMetadata(Survives(store, n, p, v), q) == GetMetadata(store, q)
  {
    CommitIsLocal(store, p, v, q);
    NamesDisjoint(p, q);
    NamesDisjoint(q, p);
  }

  /** Run to the end, the steps do what the protocol model does in one. */
  lemma StepsRefineReceive(c: Config, s: State, p: string, frame: Bytes, transport: Transport, material: Bytes,
                           file: File, torn: File)
    requires Receive(c, s, p, frame, transport, material).1.Accepted?
    ensures var s' := Receive(c, s, p, frame, transport, material).0;
            var v := FullValue(c, s, p, frame, transport);
            v.Some? && var d := CommitSteps(Device(s.store, file, Absent, s.bus), STEPS, p, v.value, frame, torn);
                       d.mem == s'.store && d.bus == s'.bus && d.file == Image(s'.store)
  {
    AcceptedCommits(c, s, p, frame, transport, material);
    StepsAre(Device(s.store, file, Absent, s.bus), STEPS, p, FullValue(c, s, p, frame, transport).value, frame, torn);
  }

  // ---------- runs with crashes ----------

  /** The stack and its file. */
  datatype Node = Node(s: State, file: File)

  /**
   An operation that completes; a reception cut off after some steps of its
   commit, with the reboot that follows; or a reboot. What a reboot does not
   restore from the file is arbitrary.
   */
  datatype Event =
    | Completes(op: SecOCModel.Op)
    | CutOff(pduId: string, frame: Bytes, transport: Transport, material: Bytes, after: nat, torn: File, boot: State)
    | Reboots(boot: State)

  function Rebooted(file: File, old': State, boot: State): State {
    match LoadFile(file)
    case Object(store) => boot.(store := store)
    case _ => old'
  }

  /** The operation writes to the store, and each write flushes it. */
  predicate Writes(c: Config, s: State, op: SecOCModel.Op) {
    match op
    case ReceiveOp(p, frame, transport, material) => Receive(c, s, p, frame, transport, material).1.Accepted?
    case ResyncOp(_, _) => true
    case RotateOp(p, keyId, material) => Rotate(s.store, s.keys, s.failMode, p, keyId, material).2.Ok?
    case ProvisionOp(p, keyId, material) => Provision(s.store, s.keys, s.failMode, p, keyId, material).2.Ok?
    case _ => false
  }

  lemma OnlyWritersChange(c: Config, s: State, op: SecOCModel.Op)
    requires !Writes(c, s, op)
    ensures Step(c, s, op).store == s.store
  {
    match op
    case ReceiveOp(p, frame, transport, material) => OtherwiseKept(c, s, p, frame, transport, material);
    case TransmitOp(p, authentic, transport, material, slow) =>
      TransmitKeepsStore(c, s, p, authentic, transport, material, slow);
    case _ =>
  }

  function NodeStep(c: Config, node: Node, e: Event): Node {
    match e
    case Completes(op) =>
      var s' := Step(c, node.s, op);
      Node(s', if Writes(c, node.s, op) then Image(s'.store) else node.file)
    case CutOff(p, frame, transport, material, after, torn, boot) =>
      var v := FullValue(c, node.s, p, frame, transport);
      var file :=
        if Receive(c, node.s, p, frame, transport, material).1.Accepted? && v.Some? then
          CommitSteps(Device(node.s.store, node.file, Absent, node.s.bus),
                      if after < STEPS then after else STEPS, p, v.value, frame, torn).file
        else node.file;
      Node(Rebooted(file, node.s, boot), file)
    case Reboots(boot) => Node(Rebooted(node.file, node.s, boot), node.file)
  }

  /** The full values of the frames of PDU p that the event puts on the bus as accepted: none or one. */
  function Deliveries(c: Config, node: Node, e: Event, p: string): seq<int> {
    match e
    case Completes(ReceiveOp(q, frame, transport, material)) =>
      DeliveredValue(c, node.s, q, frame, transport, material, p)
    case CutOff(q, frame, transport, material, after, _, _) =>
      if after < STEPS then [] else DeliveredValue(c, node.s, q, frame, transport, material, p)
    case _ => []
  }

  function DeliveredValue(c: Config, s: State, q: string, frame: Bytes, transport: Transport, material: Bytes,
                          p: string): seq<int>
  {
    var v := FullValue(c, s, q, frame, transport);
    if q == p && Receive(c, s, q, frame, transport, material).1.Accepted? && v.Some? then [v.value] else []
  }

  function NodeRun(c: Config, node: Node, events: seq<Event>): Node {
    if events == [] then node else NodeStep(c, NodeRun(c, node, events[..|events| - 1]), events[|events| - 1])
  }

  function Delivered(c: Config, node: Node, events: seq<Event>, p: string): seq<int> {
    if events == [] then []
    else
      var n := |events| - 1;
      Delivered(c, node, events[..n], p) + Deliveries(c, NodeRun(c, node, events[..n]), events[n], p)
  }

  ghost predicate Increasing(xs: seq<int>) {
    forall i, j :: 0 <= i < j < |xs| ==> xs[i] < xs[j]
  }

  /** Between operations the file always holds what memory holds. */
  ghost predicate Recoverable(node: Node) {
    LoadFile(node.file) == Object(node.s.store) && Storable(node.s.store)
  }

  predicate NoResyncEvent(events: seq<Event>, p: string) {
    forall i :: 0 <= i < |events| ==> !(events[i].Completes? && events[i].op.ResyncOp? && events[i].op.pduId == p)
  }

  lemma RecordStorable(store: Store, m: KeyMetadata)
    requires Storable(store)
    ensures Storable(SaveMetadata(store, m))
  {
    NamesDisjoint(m.pduId, m.pduId);
    assert MARKER != KeyMetaName(m.pduId);
    RecordUntagged(m);
    UpdateStorable(store, KeyMetaName(m.pduId), ToRecord(m));
  }

  /** Every operation leaves a store that can be flushed and read back. */
  lemma StepStorable(c: Config, s: State, op: SecOCModel.Op)
    requires Storable(s.store)
    ensures Storable(Step(c, s, op).store)
  {
    match op
    case ReceiveOp(p, frame, transport, material) =>
      OtherwiseKept(c, s, p, frame, transport, material);
      if Receive(c, s, p, frame, transport, material).1.Accepted? {
        AcceptedCommits(c, s, p, frame, transport, material);
        CommitStorable(s.store, p, FullValue(c, s, p, frame, transport).value);
      }
    case TransmitOp(p, authentic, transport, material, slow) =>
      TransmitKeepsStore(c, s, p, authentic, transport, material, slow);
    case ResyncOp(p, v) =>
      CommitStorable(s.store, p, v);
    case RotateOp(p, keyId, material) =>
      if GetMetadata(s.store, p).Some? {
        RecordStorable(s.store, KeyMetadata(p, keyId, GetMetadata(s.store, p).value.version + 1, Active));
      }
    case ProvisionOp(p, keyId, material) =>
      RecordStorable(s.store, KeyMetadata(p, keyId, 1, Active));
    case _ =>
  }

  /** One event keeps the node recoverable, never lowers the PDU's value, and delivers only values above the old one. */
  lemma EventSafe(c: Config, node: Node, e: Event, p: string)
    requires Recoverable(node)
    requires !(e.Completes? && e.op.ResyncOp? && e.op.pduId == p)
    ensures var node' := NodeStep(c, node, e);
            var l, l', ds := LastValid(node.s.store, p), LastValid(node'.s.store, p), Deliveries(c, node, e, p);
            && Recoverable(node')
            && l <= l'
            && (ds == [] || (|ds| == 1 && l < ds[0] <= l'))
  {
    match e
    case Completes(op) =>
      CompletionSafe(c, node, op, p);
    case CutOff(q, frame, transport, material, after, torn, boot) =>
      var s := node.s;
      if Receive(c, s, q, frame, transport, material).1.Accepted? {
        AcceptedAdvances(c, s, q, frame, transport, material, p);
        var v := FullValue(c, s, q, frame, transport).value;
        CrashOutcome(Device(s.store, node.file, Absent, s.bus), if after < STEPS then after else STEPS,
                     q, v, frame, torn, p);
      }
    case Reboots(boot) =>
  }

  lemma CompletionSafe(c: Config, node: Node, op: SecOCModel.Op, p: string)
    requires Recoverable(node)
    requires !(op.ResyncOp? && op.pduId == p)
    ensures var node' := NodeStep(c, node, Completes(op));
            var l, l', ds := LastValid(node.s.store, p), LastValid(node'.s.store, p),
                             Deliveries(c, node, Completes(op), p);
            && Recoverable(node')
            && l <= l'
            && (ds == [] || (|ds| == 1 && l < ds[0] <= l'))
  {
    StepStorable(c, node.s, op);
    if !Writes(c, node.s, op) {
      OnlyWritersChange(c, node.s, op);
    }
    ReloadAfterFlush(Step(c, node.s, op).store);
    StepGrowth(c, node.s, op, p);
    if AcceptsFor(c, node.s, op, p) {
      AcceptedAdvances(c, node.s, p, op.frame, op.transport, op.material, p);
    }
  }

  /** Delivered values strictly increase and lie above the value at the start and within the value now. */
  ghost predicate DeliveredOnce(ds: seq<int>, l: int, l': int) {
    l <= l' && Increasing(ds) && forall i :: 0 <= i < |ds| ==> l < ds[i] <= l'
  }

  lemma OneMoreEvent(c: Config, node: Node, e: Event, p: string, ds: seq<int>, l: int)
    requires Recoverable(node) && DeliveredOnce(ds, l, LastValid(node.s.store, p))
    requires !(e.Completes? && e.op.ResyncOp? && e.op.pduId == p)
    ensures var node' := NodeStep(c, node, e);
            Recoverable(node') && DeliveredOnce(ds + Deliveries(c, node, e, p), l, LastValid(node'.s.store, p))
  {
    EventSafe(c, node, e, p);
  }

  /**
   At most once, across crashes: in any run of completed operations, receptions
   cut off anywhere in their commit, and reboots, with no resync of the PDU,
   the full values delivered for it strictly increase and never exceed the
   value its store would be reloaded with.
   */
  lemma {:induction false} AtMostOnce(c: Config, node: Node, events: seq<Event>, p: string)
    requires Recoverable(node) && NoResyncEvent(events, p)
    ensures var node' := NodeRun(c, node, events);
            && Recoverable(node')
            && DeliveredOnce(Delivered(c, node, events, p), LastValid(node.s.store, p), LastValid(node'.s.store, p))
  {
    if events != [] {
      var n := |events| - 1;
      AtMostOnce(c, node, events[..n], p);
      OneMoreEvent(c, NodeRun(c, node, events[..n]), events[n], p, Delivered(c, node, events[..n], p),
                   LastValid(node.s.store, p));
    }
  }

  /** The first boot of a device, with no file yet or one that is no JSON: an empty and recoverable store. */
  lemma FirstBoot(file: File, old': State, boot: State)
    requires file.Absent? || file.Unparsable?
    ensures var s := Rebooted(file, old', boot);
            && s == boot.(store := map[])
            && Recoverable(Node(s, file))
            && forall p :: LastValid(s.store, p) == 0
  {}

  /** So from the first boot on, over any run with crashes, the delivered values of a PDU rise strictly from above 0. */
  lemma AtMostOnceFromFirstBoot(c: Config, file: File, old': State, boot: State, events: seq<Event>, p: string)
    requires (file.Absent? || file.Unparsable?) && NoResyncEvent(events, p)
    ensures var node := Node(Rebooted(file, old', boot), file);
            var node' := NodeRun(c, node, events);
            && Recoverable(node')
            && DeliveredOnce(Delivered(c, node, events, p), 0, LastValid(node'.s.store, p))
  {
    FirstBoot(file, old', boot);
    AtMostOnce(c, Node(Rebooted(file, old', boot), file), events, p);
  }

  /** A completed reception puts the frame on the bus exactly if its value counts as delivered. */
  lemma DeliveredIffPublished(c: Config, node: Node, p: string, frame: Bytes, transport: Transport, material: Bytes)
    ensures var e := Completes(ReceiveOp(p, frame, transport, material));
            var v := FullValue(c, node.s, p, frame, transport);
            && NodeStep(c, node, e).s.bus.queue
               == node.s.bus.queue + (if Deliveries(c, node, e, p) == [] then [] else [(p, frame)])
            && (Deliveries(c, node, e, p) != [] ==> v.Some? && Deliveries(c, node, e, p) == [v.value])
  {
    OtherwiseKept(c, node.s, p, frame, transport, material);
    if Receive(c, node.s, p, frame, transport, material).1.Accepted? {
      AcceptedCommits(c, node.s, p, frame, transport, material);
    }
  }

  // ---------- replays across crashes ----------

  /** The event raises the PDU's recoverable value: a completed acceptance, or one cut off after the first rename. */
  predicate CommitsFor(c: Config, s: State, e: Event, p: string) {
    match e
    case Completes(op) => AcceptsFor(c, s, op, p)
    case CutOff(q, frame, transport, material, after, _, _) =>
      q == p && after >= 4 && Receive(c, s, p, frame, transport, material).1.Accepted?
    case Reboots(_) => false
  }

  function Commits(c: Config, node: Node, events: seq<Event>, p: string): nat {
    if events == [] then 0
    else
      var n := |events| - 1;
      Commits(c, node, events[..n], p) + if CommitsFor(c, NodeRun(c, node, events[..n]).s, events[n], p) then 1 else 0
  }

  /** One event raises the recoverable value by 1 to the window if it commits, and not at all otherwise. */
  lemma EventGrowth(c: Config, node: Node, e: Event, p: string)
    requires Recoverable(node)
    requires !(e.Completes? && e.op.ResyncOp? && e.op.pduId == p)
    ensures var l, l' := LastValid(node.s.store, p), LastValid(NodeStep(c, node, e).s.store, p);
            if CommitsFor(c, node.s, e, p) then l + 1 <= l' <= l + c.window else l' == l
  {
    match e
    case Completes(op) =>
      StepGrowth(c, node.s, op, p);
    case CutOff(q, frame, transport, material, after, torn, boot) =>
      var s := node.s;
      if Receive(c, s, q, frame, transport, material).1.Accepted? {
        AcceptedAdvances(c, s, q, frame, transport, material, p);
        CrashOutcome(Device(s.store, node.file, Absent, s.bus), if after < STEPS then after else STEPS,
                     q, FullValue(c, s, q, frame, transport).value, frame, torn, p);
      }
    case Reboots(boot) =>
  }

  lemma OneMoreGrowth(c: Config, store: Store, node: Node, e: Event, p: string, n: nat)
    requires Recoverable(node) && Grown(c, store, node.s.store, p, n)
    requires !(e.Completes? && e.op.ResyncOp? && e.op.pduId == p)
    ensures Grown(c, store, NodeStep(c, node, e).s.store, p, n + if CommitsFor(c, node.s, e, p) then 1 else 0)
  {
    EventGrowth(c, node, e, p);
    Distribute(c.window, n);
  }

  /** Over runs with crashes and reboots the recoverable value grows by 1 to the window per commit. */
  lemma {:induction false} NodeGrowth(c: Config, node: Node, events: seq<Event>, p: string)
    requires Recoverable(node) && NoResyncEvent(events, p)
    ensures Grown(c, node.s.store, NodeRun(c, node, events).s.store, p, Commits(c, node, events, p))
  {
    if events != [] {
      var n := |events| - 1;
      NodeGrowth(c, node, events[..n], p);
      AtMostOnce(c, node, events[..n], p);
      OneMoreGrowth(c, node.s.store, NodeRun(c, node, events[..n]), events[n], p, Commits(c, node, events[..n], p));
    }
  }

  /** The event is the reception, complete or cut off, of an acceptable frame of the PDU with this freshness field. */
  predicate ReceivesField(c: Config, s: State, e: Event, p: string, t: nat) {
    match e
    case Completes(ReceiveOp(q, frame, transport, material)) =>
      q == p && AcceptsField(c, s, p, frame, transport, material, t)
    case CutOff(q, frame, transport, material, _, _, _) =>
      q == p && AcceptsField(c, s, p, frame, transport, material, t)
    case _ => false
  }

  lemma CommitIsCongruent(c: Config, node: Node, e: Event, p: string, t: nat)
    requires Recoverable(node) && ReceivesField(c, node.s, e, p, t) && CommitsFor(c, node.s, e, p)
    ensures LastValid(NodeStep(c, node, e).s.store, p) % Modulus(c) == t % Modulus(c)
  {
    var s := node.s;
    match e
    case Completes(op) =>
      AcceptedIsCongruent(c, s, p, op.frame, op.transport, op.material, t);
    case CutOff(_, frame, transport, material, after, torn, boot) =>
      AcceptedIsCongruent(c, s, p, frame, transport, material, t);
      AcceptedAdvances(c, s, p, frame, transport, material, p);
      CrashOutcome(Device(s.store, node.file, Absent, s.bus), if after < STEPS then after else STEPS,
                   p, FullValue(c, s, p, frame, transport).value, frame, torn, p);
  }

  lemma DeliveredApart(c: Config, node: Node, e: Event, p: string, t: nat, v: int)
    requires ReceivesField(c, node.s, e, p, t)
    requires v <= LastValid(node.s.store, p) && v % Modulus(c) == t % Modulus(c)
    ensures forall u :: u in Deliveries(c, node, e, p) ==> u >= v + Modulus(c)
  {
    AcceptedExactlyInWindow(LastValid(node.s.store, p), c.window, Modulus(c), t);
    var r := Validate(LastValid(node.s.store, p), c.window, Modulus(c), t);
    if r.Some? {
      CongruentApart(v, r.value, Modulus(c));
    }
  }

  /** From the first boot on, n commits raise the recoverable value from 0 to between n and a window each. */
  lemma NodeGrowthFromFirstBoot(c: Config, file: File, old': State, boot: State, events: seq<Event>, p: string)
    requires (file.Absent? || file.Unparsable?) && NoResyncEvent(events, p)
    ensures var node := Node(Rebooted(file, old', boot), file);
            var n := Commits(c, node, events, p);
            n <= LastValid(NodeRun(c, node, events).s.store, p) <= c.window * n
  {
    FirstBoot(file, old', boot);
    NodeGrowth(c, Node(Rebooted(file, old', boot), file), events, p);
  }

  /**
   The replay distance survives crashes. Once a frame has been committed, by a
   completed reception or by one cut off after the first rename, a frame with
   the same field is acceptable only after the recoverable value has come
   within a window of a whole modulus, whatever crashes and reboots lie
   between; that takes at least modulus / window - 1 other commits; and what is
   then delivered lies a whole modulus above the committed value.
   */
  lemma ReplayDistanceAcrossCrashes(c: Config, node: Node, first: Event, events: seq<Event>, second: Event,
                                    p: string, t: nat)
    requires Recoverable(node) && NoResyncEvent(events, p)
    requires ReceivesField(c, node.s, first, p, t) && CommitsFor(c, node.s, first, p)
    requires ReceivesField(c, NodeRun(c, NodeStep(c, node, first), events).s, second, p, t)
    ensures var node1 := NodeStep(c, node, first);
            var node2 := NodeRun(c, node1, events);
            && LastValid(node2.s.store, p) >= LastValid(node1.s.store, p) + Modulus(c) - c.window
            && SpansModulus(c, Commits(c, node1, events, p))
            && (c.window == 16 && c.freshnessLength == 2 ==> Commits(c, node1, events, p) >= 4095)
            && (forall v :: v in Deliveries(c, node2, second, p) ==> v >= LastValid(node1.s.store, p) + Modulus(c))
  {
    EventSafe(c, node, first, p);
    CommitIsCongruent(c, node, first, p, t);
    var node1 := NodeStep(c, node, first);
    NodeGrowth(c, node1, events, p);
    DeliveredApart(c, NodeRun(c, node1, events), second, p, t, LastValid(node1.s.store, p));
    var s2, n := NodeRun(c, node1, events).s, Commits(c, node1, events, p);
    match second
    case Completes(op) =>
      SecondAcceptance(c, node1.s.store, s2, p, t, op.frame, op.transport, op.material, n);
    case CutOff(_, frame, transport, material, _, _, _) =>
      SecondAcceptance(c, node1.s.store, s2, p, t, frame, transport, material, n);
  }

  /**
   The frame whose reception crashed after n steps, offered again after the
   reboot, whatever the keys now are. Before the first rename it is as fresh as
   it was; from then on it is rejected, unless the window spans the modulus.
   It was delivered only if all steps ran, so cut off between the first rename
   and the publication it is lost.
   */
  lemma RebootRejectsReplay(c: Config, node: Node, p: string, frame: Bytes, transport: Transport, material: Bytes,
                            n: nat, torn: File, boot: State, material': Bytes)
    requires Recoverable(node) && n <= STEPS
    requires Receive(c, node.s, p, frame, transport, material).1.Accepted?
    ensures var e := CutOff(p, frame, transport, material, n, torn, boot);
            var s' := NodeStep(c, node, e).s;
            var v := FullValue(c, node.s, p, frame, transport);
            && v.Some? && Deliveries(c, node, e, p) == (if n == STEPS then [v.value] else [])
            && (n < 4 ==> FullValue(c, s', p, frame, transport) == v)
            && (n >= 4 && c.window < Modulus(c) ==>
                  Receive(c, s', p, frame, transport, material').1 == Rejected(FreshnessOutOfWindow))
  {
    AcceptedAdvances(c, node.s, p, frame, transport, material, p);
    var v, t := FullValue(c, node.s, p, frame, transport).value, WireValue(c, p, frame, transport).value;
    CrashSurvivor(c, node, p, frame, transport, material, n, torn, boot);
    ImmediateReplay(LastValid(node.s.store, p), c.window, Modulus(c), t, v);
    if n >= 4 {
      var s' := NodeStep(c, node, CutOff(p, frame, transport, material, n, torn, boot)).s;
      StaleRejected(c, s', p, frame, transport, material');
    }
  }

  /** What the reboot after a crash at step n finds for the PDU. */
  lemma CrashSurvivor(c: Config, node: Node, p: string, frame: Bytes, transport: Transport, material: Bytes,
                      n: nat, torn: File, boot: State)
    requires Recoverable(node) && n <= STEPS
    requires Receive(c, node.s, p, frame, transport, material).1.Accepted?
    ensures var s' := NodeStep(c, node, CutOff(p, frame, transport, material, n, torn, boot)).s;
            var v := FullValue(c, node.s, p, frame, transport);
            && v.Some?
            && (if n < 4 then s'.store == node.s.store
                else LastValid(s'.store, p) == v.value && Readable(s'.store, p))
  {
    var s := node.s;
    AcceptedAdvances(c, s, p, frame, transport, material, p);
    var v := FullValue(c, s, p, frame, transport).value;
    CrashOutcome(Device(s.store, node.file, Absent, s.bus), n, p, v, frame, torn, p);
    if n >= 4 {
      SurvivorReadable(s.store, n, p, v);
    }
  }

  lemma SurvivorReadable(store: Store, n: nat, p: string, v: int)
    requires n >= 4
    ensures Readable(Survives(store, n, p, v), p)
  {
    NamesDisjoint(p, p);
  }

  /** A frame with a profile, lengths and a parse whose field is not reconstructed is out of the window. */
  lemma StaleRejected(c: Config, s: State, p: string, frame: Bytes, transport: Transport, material: Bytes)
    requires WireValue(c, p, frame, transport).Some? && Readable(s.store, p)
    ensures FullValue(c, s, p, frame, transport).None? ==>
              Receive(c, s, p, frame, transport, material).1 == Rejected(FreshnessOutOfWindow)
  {}

  /** With the key it had before, the rebooted receiver decides on that frame as before if no rename had happened. */
  lemma EarlyCrashLosesNothing(c: Config, node: Node, p: string, frame: Bytes, transport: Transport, material: Bytes,
                               n: nat, torn: File, boot: State, material': Bytes, f: nat, m: nat, k: Bytes)
    requires Recoverable(node) && n < 4 && f + m > 0
    requires Operational(c, node.s, p, transport, material, f, m, k)
    requires var e := CutOff(p, frame, transport, material, n, torn, boot);
             Operational(c, NodeStep(c, node, e).s, p, transport, material', f, m, k)
    requires Receive(c, node.s, p, frame, transport, material).1.Accepted?
    ensures var s' := NodeStep(c, node, CutOff(p, frame, transport, material, n, torn, boot)).s;
            Receive(c, s', p, frame, transport, material').1 == Receive(c, node.s, p, frame, transport, material).1
  {
    var s, s' := node.s, NodeStep(c, node, CutOff(p, frame, transport, material, n, torn, boot)).s;
    ParseSplits(frame, f, m, transport);
    ReceiveDecides(c, s, p, frame, transport, material, f, m, k);
    ReceiveDecides(c, s', p, frame, transport, material', f, m, k);
    CrashSurvivor(c, node, p, frame, transport, material, n, torn, boot);
  }
}
