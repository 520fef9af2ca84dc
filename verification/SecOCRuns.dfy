/** Whole runs of the stack: how freshness grows, how far apart replays are, and that its cells stay integers. */
module SecOCRuns {
  import opened Arith
  import opened Bytes
  import opened SecurityProfile
  import opened PduManager
  import opened Freshness
  import opened Nvm
  import opened Keys
  import opened SecOCModel
  import opened SecOCProtocol

  /** Saving a key record moves no freshness value. */
  lemma RecordKeepsFreshness(store: Store, m: KeyMetadata, p: string)
    ensures Cell(SaveMetadata(store, m), p) == Cell(store, p)
  {
    NamesDisjoint(p, m.pduId);
  }

  /** An operation other than a resync of the PDU moves its value only by accepting a frame, then within the window. */
  lemma StepGrowth(c: Config, s: State, op: Op, p: string)
    requires !(op.ResyncOp? && op.pduId == p)
    ensures var l, l' := LastValid(s.store, p), LastValid(Step(c, s, op).store, p);
            if AcceptsFor(c, s, op, p) then l + 1 <= l' <= l + c.window else l' == l
  {
    match op
    case ReceiveOp(q, frame, transport, material) =>
      if Receive(c, s, q, frame, transport, material).1.Accepted? {
        AcceptedAdvances(c, s, q, frame, transport, material, p);
      } else {
        OtherwiseKept(c, s, q, frame, transport, material);
      }
    case TransmitOp(q, authentic, transport, material, slow) =>
      TransmitKeepsStore(c, s, q, authentic, transport, material, slow);
    case ResyncOp(q, v) =>
      CommitIsLocal(s.store, q, v, p);
    case RotateOp(q, keyId, material) =>
      if GetMetadata(s.store, q).Some? {
        RecordKeepsFreshness(s.store, KeyMetadata(q, keyId, GetMetadata(s.store, q).value.version + 1, Active), p);
      }
    case ProvisionOp(q, keyId, material) =>
      RecordKeepsFreshness(s.store, KeyMetadata(q, keyId, 1, Active), p);
    case _ =>
  }

  /** A transmission commits nothing: it reads l + 1 and leaves store, counts and lockout as they were. */
  lemma TransmitKeepsStore(c: Config, s: State, p: string, authentic: Bytes, transport: Transport,
                           material: Bytes, slow: bool)
    ensures var s' := Transmit(c, s, p, authentic, transport, material, slow).0;
            && s'.store == s.store && s'.bus == s.bus && s'.failMode == s.failMode
            && s'.guard.counts == s.guard.counts && s'.guard.locked == s.guard.locked && s'.guard.ecu == s.guard.ecu
  {
    TransmitIsMac(c, s, p, authentic, transport, material, slow);
    if p in c.profiles {
      MacKeepsStore(c, s, p, Padded(authentic, transport), LastValid(s.store, p) + 1, transport, material, slow);
    }
  }

  /** All that a transmission does to the state is done by the generation of its MAC. */
  lemma TransmitIsMac(c: Config, s: State, p: string, authentic: Bytes, transport: Transport,
                      material: Bytes, slow: bool)
    ensures var s' := Transmit(c, s, p, authentic, transport, material, slow).0;
            s' == s
            || (p in c.profiles && s' == GenerateMac(c, s, p, Padded(authentic, transport), LastValid(s.store, p) + 1,
                                                     transport, material, slow).0)
  {}

  lemma MacKeepsStore(c: Config, s: State, p: string, authentic: Bytes, v: int, transport: Transport,
                      material: Bytes, slow: bool)
    requires p in c.profiles
    ensures var s' := GenerateMac(c, s, p, authentic, v, transport, material, slow).0;
            && s'.store == s.store && s'.bus == s.bus && s'.failMode == s.failMode
            && s'.guard.counts == s.guard.counts && s'.guard.locked == s.guard.locked && s'.guard.ecu == s.guard.ecu
  {}

  /** Growth between two stores: at least one and at most a window per acceptance. */
  predicate Grown(c: Config, store: Store, store': Store, p: string, n: nat) {
    && LastValid(store, p) + n <= LastValid(store', p) <= LastValid(store, p) + c.window * n
    && (n > 0 ==> c.window >= 1)
  }

  lemma OneMoreStep(c: Config, store: Store, mid: State, op: Op, p: string, n: nat)
    requires !(op.ResyncOp? && op.pduId == p) && Grown(c, store, mid.store, p, n)
    ensures Grown(c, store, Step(c, mid, op).store, p, n + if AcceptsFor(c, mid, op, p) then 1 else 0)
  {
    StepGrowth(c, mid, op, p);
    Distribute(c.window, n);
  }

  /** Over a run without resync the last valid value grows by between 1 and the window per acceptance. */
  lemma {:induction false} RunGrowth(c: Config, s: State, ops: seq<Op>, p: string)
    requires NoResync(ops, p)
    ensures Grown(c, s.store, Run(c, s, ops).store, p, Acceptances(c, s, ops, p))
  {
    if ops != [] {
      var n := |ops| - 1;
      RunGrowth(c, s, ops[..n], p);
      OneMoreStep(c, s.store, Run(c, s, ops[..n]), ops[n], p, Acceptances(c, s, ops[..n], p));
    }
  }

  lemma Distribute(w: int, n: int)
    ensures w * (n + 1) == w * n + w
  {}

  /**
   Between two acceptances of frames with the same freshness field, with any
   operations but a resync of that PDU in between, the last valid value has
   come within a window of a whole modulus, which takes at least
   modulus / window - 1 other acceptances: 4095 with the deployed window of 16
   and two-byte freshness.
   */
  lemma ReplayDistanceOverRuns(c: Config, s: State, p: string, t: nat,
                               frame: Bytes, transport: Transport, material: Bytes, s1: State,
                               ops: seq<Op>, s2: State,
                               frame': Bytes, transport': Transport, material': Bytes)
    requires AcceptsField(c, s, p, frame, transport, material, t)
    requires s1 == Receive(c, s, p, frame, transport, material).0
    requires NoResync(ops, p) && s2 == Run(c, s1, ops)
    requires AcceptsField(c, s2, p, frame', transport', material', t)
    ensures LastValid(s2.store, p) >= LastValid(s1.store, p) + Modulus(c) - c.window
    ensures SpansModulus(c, Acceptances(c, s1, ops, p))
    ensures c.window == 16 && c.freshnessLength == 2 ==> Acceptances(c, s1, ops, p) >= 4095
  {
    AcceptedIsCongruent(c, s, p, frame, transport, material, t);
    RunGrowth(c, s1, ops, p);
    SecondAcceptance(c, s1.store, s2, p, t, frame', transport', material', Acceptances(c, s1, ops, p));
  }

  lemma AcceptedIsCongruent(c: Config, s: State, p: string, frame: Bytes, transport: Transport, material: Bytes, t: nat)
    requires AcceptsField(c, s, p, frame, transport, material, t)
    ensures LastValid(Receive(c, s, p, frame, transport, material).0.store, p) % Modulus(c) == t % Modulus(c)
  {
    AcceptedAdvances(c, s, p, frame, transport, material, p);
    AcceptedExactlyInWindow(LastValid(s.store, p), c.window, Modulus(c), t);
  }

  /** n acceptances and one more, each a whole window, cover the modulus: n >= modulus / window - 1. */
  predicate SpansModulus(c: Config, n: nat) {
    c.window * (n + 1) >= Modulus(c)
  }

  /** A frame with the field of an earlier accepted value is accepted only after the growth of nearly a modulus. */
  lemma SecondAcceptance(c: Config, store: Store, s: State, p: string, t: nat,
                         frame: Bytes, transport: Transport, material: Bytes, n: nat)
    requires LastValid(store, p) % Modulus(c) == t % Modulus(c)
    requires Grown(c, store, s.store, p, n)
    requires AcceptsField(c, s, p, frame, transport, material, t)
    ensures LastValid(s.store, p) >= LastValid(store, p) + Modulus(c) - c.window
    ensures SpansModulus(c, n)
    ensures c.window == 16 && c.freshnessLength == 2 ==> n >= 4095
  {
    AcceptedIsFresh(c, s, p, frame, transport, material, t);
    GrownUp(c, store, s.store, p, n);
    Freshness.ReplayDistance(LastValid(s.store, p), c.window, Modulus(c), t, LastValid(store, p));
    CoversModulus(LastValid(store, p), LastValid(s.store, p), c.window, Modulus(c), n);
    CapacityOfTwo();
  }

  lemma AcceptedIsFresh(c: Config, s: State, p: string, frame: Bytes, transport: Transport, material: Bytes, t: nat)
    requires AcceptsField(c, s, p, frame, transport, material, t)
    ensures Validate(LastValid(s.store, p), c.window, Modulus(c), t).Some? && c.window >= 1
  {
    AcceptedAdvances(c, s, p, frame, transport, material, p);
  }

  lemma GrownUp(c: Config, store: Store, store': Store, p: string, n: nat)
    requires Grown(c, store, store', p, n)
    ensures LastValid(store, p) <= LastValid(store', p) <= LastValid(store, p) + c.window * n
  {}

  lemma CoversModulus(l: int, l': int, window: int, modulus: int, n: nat)
    requires l + modulus - window <= l' <= l + window * n
    ensures window * (n + 1) >= modulus
    ensures window == 16 && modulus == 65536 ==> n >= 4095
  {
    Distribute(window, n);
  }

  /** The freshness field of a frame fits the modulus whenever the wire field is not wider than it. */
  lemma WireValueFits(c: Config, p: string, frame: Bytes, transport: Transport)
    requires WireValue(c, p, frame, transport).Some?
    requires var (f, m) := c.profiles[p].TruncationLengths(transport).value; f <= c.freshnessLength && f + m > 0
    ensures WireValue(c, p, frame, transport).value < Modulus(c)
  {
    var (f, m) := c.profiles[p].TruncationLengths(transport).value;
    ParseSplits(frame, f, m, transport);
    Pow2Monotone(8 * f, 8 * c.freshnessLength);
  }

  /** Every freshness cell of the store holds an integer. */
  ghost predicate IntegerCells(store: Store) {
    forall p :: LastValidName(p) in store ==> store[LastValidName(p)].Int?
  }

  lemma CommitKeepsCells(store: Store, p: string, v: int)
    requires IntegerCells(store)
    ensures IntegerCells(Commit(store, p, v))
  {
    forall q | LastValidName(q) in Commit(store, p, v)
      ensures Commit(store, p, v)[LastValidName(q)].Int?
    {
      NamesDisjoint(q, p);
    }
  }

  lemma RecordKeepsCells(store: Store, m: KeyMetadata)
    requires IntegerCells(store)
    ensures IntegerCells(SaveMetadata(store, m))
  {
    forall q | LastValidName(q) in SaveMetadata(store, m)
      ensures SaveMetadata(store, m)[LastValidName(q)].Int?
    {
      NamesDisjoint(q, m.pduId);
    }
  }

  /** No operation ever puts anything but an integer into a freshness cell. */
  lemma {:induction false} CellsStayIntegers(c: Config, s: State, ops: seq<Op>)
    requires IntegerCells(s.store)
    ensures IntegerCells(Run(c, s, ops).store)
  {
    if ops != [] {
      var n := |ops| - 1;
      CellsStayIntegers(c, s, ops[..n]);
      StepKeepsCells(c, Run(c, s, ops[..n]), ops[n]);
    }
  }

  lemma StepKeepsCells(c: Config, s: State, op: Op)
    requires IntegerCells(s.store)
    ensures IntegerCells(Step(c, s, op).store)
  {
    match op
    case ReceiveOp(p, frame, transport, material) =>
      OtherwiseKept(c, s, p, frame, transport, material);
      if Receive(c, s, p, frame, transport, material).1.Accepted? {
        AcceptedCommits(c, s, p, frame, transport, material);
        CommitKeepsCells(s.store, p, FullValue(c, s, p, frame, transport).value);
      }
    case TransmitOp(p, authentic, transport, material, slow) =>
      TransmitKeepsStore(c, s, p, authentic, transport, material, slow);
    case ResyncOp(p, v) =>
      CommitKeepsCells(s.store, p, v);
    case RotateOp(p, keyId, material) =>
      if GetMetadata(s.store, p).Some? {
        RecordKeepsCells(s.store, KeyMetadata(p, keyId, GetMetadata(s.store, p).value.version + 1, Active));
      }
    case ProvisionOp(p, keyId, material) =>
      RecordKeepsCells(s.store, KeyMetadata(p, keyId, 1, Active));
    case _ =>
  }
}
