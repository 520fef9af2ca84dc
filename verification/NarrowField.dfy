/** A wire field narrower than the modulus is used up for good, whoever sends: how many frames can ever be accepted. */
module NarrowField {
  import opened Arith
  import opened Bytes
  import opened Wrappers
  import opened PduManager
  import opened Freshness
  import opened SecOCModel
  import opened SecOCProtocol
  import opened SecOCRuns

  /** Every frame for the PDU in the run has a freshness field of at most f bytes, and a non-empty trailer. */
  predicate FieldsWithin(c: Config, ops: seq<Op>, p: string, f: nat) {
    forall i :: 0 <= i < |ops| ==> FieldWithin(c, ops[i], p, f)
  }

  predicate FieldWithin(c: Config, op: Op, p: string, f: nat) {
    op.ReceiveOp? && op.pduId == p && p in c.profiles ==>
      match c.profiles[p].TruncationLengths(op.transport)
      case None => true
      case Some((f', m)) => f' <= f && f' + m > 0
  }

  /** How many residues below the field's capacity d are unused: those past l's own, or all if l's is not among them. */
  function Unused(l: int, d: int, modulus: int): nat
    requires 0 < d && 0 < modulus
  {
    if l % modulus < d then d - 1 - l % modulus else d
  }

  /** A fresh value with a field below d uses up at least one of them, if the window cannot reach round the modulus. */
  lemma ValueUsesUp(l: int, window: int, modulus: int, d: int, t: int)
    requires 0 <= t < d < modulus && window <= modulus - d
    ensures var r := Validate(l, window, modulus, t);
            r.Some? ==> Unused(r.value, d, modulus) < Unused(l, d, modulus)
  {
    var r := Validate(l, window, modulus, t);
    DivMod(l, modulus);
    if r.Some? {
      AcceptedExactlyInWindow(l, window, modulus, t);
      DivModUnique(t, modulus, 0, t);
      var v := r.value;
      DivMod(v, modulus);
      if l % modulus < d {
        SameCycle(l / modulus, l % modulus, v / modulus, t, modulus, d, window);
      }
    }
  }

  lemma SameCycle(q: int, r: int, q': int, t: int, modulus: int, d: int, window: int)
    requires 0 <= r < d < modulus && 0 <= t < d && window <= modulus - d
    requires q * modulus + r < q' * modulus + t <= q * modulus + r + window
    ensures r < t
  {
    assert (q + 1) * modulus == q * modulus + modulus && (q - 1) * modulus == q * modulus - modulus;
    if q' > q {
      MulLe(q + 1, q', modulus);
    } else if q' < q {
      MulLe(q', q - 1, modulus);
    }
  }

  /** A frame with such a field has a value below its capacity. */
  lemma FieldBelow(c: Config, op: Op, p: string, f: nat)
    requires FieldWithin(c, op, p, f) && op.ReceiveOp? && op.pduId == p
    requires WireValue(c, p, op.frame, op.transport).Some?
    ensures WireValue(c, p, op.frame, op.transport).value < Capacity(f)
  {
    var (f', m) := c.profiles[p].TruncationLengths(op.transport).value;
    ParseSplits(op.frame, f', m, op.transport);
    Pow2Monotone(8 * f', 8 * f);
  }

  lemma StepUsesUp(c: Config, s: State, op: Op, p: string, f: nat)
    requires FieldWithin(c, op, p, f) && !(op.ResyncOp? && op.pduId == p)
    requires Capacity(f) < Modulus(c) && c.window <= Modulus(c) - Capacity(f)
    ensures var a, a' := Unused(LastValid(s.store, p), Capacity(f), Modulus(c)),
                         Unused(LastValid(Step(c, s, op).store, p), Capacity(f), Modulus(c));
            if AcceptsFor(c, s, op, p) then a' < a else a' == a
  {
    StepGrowth(c, s, op, p);
    if AcceptsFor(c, s, op, p) {
      FrameUsesUp(c, s, op, p, f);
    }
  }

  lemma FrameUsesUp(c: Config, s: State, op: Op, p: string, f: nat)
    requires FieldWithin(c, op, p, f) && AcceptsFor(c, s, op, p)
    requires Capacity(f) < Modulus(c) && c.window <= Modulus(c) - Capacity(f)
    ensures Unused(LastValid(Step(c, s, op).store, p), Capacity(f), Modulus(c))
          < Unused(LastValid(s.store, p), Capacity(f), Modulus(c))
  {
    AcceptedAdvances(c, s, p, op.frame, op.transport, op.material, p);
    FieldBelow(c, op, p, f);
    ValueUsesUp(LastValid(s.store, p), c.window, Modulus(c), Capacity(f),
                WireValue(c, p, op.frame, op.transport).value);
  }

  /**
   Whoever sends: over any run without resync in which every frame of the PDU
   has a field of at most f < F bytes, and W <= M - 256^f, each acceptance
   uses up a residue of the field for good. So at most 256^f - 1 - L mod M
   frames are ever accepted, or 256^f if L's residue is beyond the field.
   */
  lemma {:induction false} NarrowFieldRunsOut(c: Config, s: State, ops: seq<Op>, p: string, f: nat)
    requires NoResync(ops, p) && FieldsWithin(c, ops, p, f)
    requires Capacity(f) < Modulus(c) && c.window <= Modulus(c) - Capacity(f)
    ensures Acceptances(c, s, ops, p) + Unused(LastValid(Run(c, s, ops).store, p), Capacity(f), Modulus(c))
         <= Unused(LastValid(s.store, p), Capacity(f), Modulus(c))
  {
    if ops != [] {
      var n := |ops| - 1;
      NarrowFieldRunsOut(c, s, ops[..n], p, f);
      StepUsesUp(c, Run(c, s, ops[..n]), ops[n], p, f);
    }
  }

  /** And none of them twice: after the acceptance of a frame no frame with the same field is accepted in such a run. */
  lemma NeverTwice(c: Config, s: State, first: Op, ops: seq<Op>, second: Op, p: string, f: nat, t: nat)
    requires NoResync(ops, p) && FieldsWithin(c, ops, p, f)
    requires FieldWithin(c, first, p, f) && FieldWithin(c, second, p, f)
    requires Capacity(f) < Modulus(c) && c.window <= Modulus(c) - Capacity(f)
    requires AcceptsFor(c, s, first, p) && WireValue(c, p, first.frame, first.transport) == Some(t)
    requires second.ReceiveOp? && second.pduId == p && WireValue(c, p, second.frame, second.transport) == Some(t)
    ensures !AcceptsFor(c, Run(c, Step(c, s, first), ops), second, p)
  {
    var s1 := Step(c, s, first);
    var s2 := Run(c, s1, ops);
    NarrowFieldRunsOut(c, s1, ops, p, f);
    UnusedAfter(c, s, first, p, f, t);
    if AcceptsFor(c, s2, second, p) {
      FrameUsesUp(c, s2, second, p, f);
      UnusedAfter(c, s2, second, p, f, t);
    }
  }

  /** After the acceptance of field t exactly the residues past t are unused. */
  lemma UnusedAfter(c: Config, s: State, op: Op, p: string, f: nat, t: nat)
    requires FieldWithin(c, op, p, f) && Capacity(f) < Modulus(c)
    requires AcceptsFor(c, s, op, p) && WireValue(c, p, op.frame, op.transport) == Some(t)
    ensures Unused(LastValid(Step(c, s, op).store, p), Capacity(f), Modulus(c)) == Capacity(f) - 1 - t
  {
    FieldBelow(c, op, p, f);
    AcceptedIsCongruent(c, s, p, op.frame, op.transport, op.material, t);
    DivModUnique(t, Modulus(c), 0, t);
  }
}
