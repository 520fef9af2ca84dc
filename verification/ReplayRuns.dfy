/** When a recorded frame is accepted again after the freshness value has wrapped, and a run that gets there. */
module ReplayRuns {
  import opened Bytes
  import opened SecurityProfile
  import opened PduManager
  import opened Freshness
  import opened Policy
  import opened SecOCModel
  import opened SecOCProtocol
  import opened SecOCRuns
  import opened Isolation

  /**
   The MAC covers only the truncated value, so an accepted frame is accepted
   again, with the same payload, under the same key, wherever a value congruent
   to its own lies in the window; everywhere else it is out of the window. From
   its own value v on, that is first so at v + M - W.
   */
  lemma RecordedFrameReplays(c: Config, s: State, p: string, frame: Bytes, transport: Transport, material: Bytes,
                             s2: State, material': Bytes, f: nat, m: nat, k: Bytes)
    requires f <= c.freshnessLength && f + m > 0
    requires Operational(c, s, p, transport, material, f, m, k)
    requires Operational(c, s2, p, transport, material', f, m, k)
    requires Receive(c, s, p, frame, transport, material).1.Accepted?
    ensures var v := LastValid(Receive(c, s, p, frame, transport, material).0.store, p);
            var l := LastValid(s2.store, p);
            var r := Receive(c, s2, p, frame, transport, material').1;
            && r == (if (v - l - 1) % Modulus(c) < c.window then Receive(c, s, p, frame, transport, material).1
                     else Rejected(FreshnessOutOfWindow))
            && (v <= l < v + Modulus(c) ==> (r.Accepted? <==> l >= v + Modulus(c) - c.window))
  {
    ExactAcceptance(c, s, p, frame, transport, material, f, m, k);
    ExactAcceptance(c, s2, p, frame, transport, material', f, m, k);
    WireValueFits(c, p, frame, transport);
    ParseSplits(frame, f, m, transport);
    var v, l := LastValid(Receive(c, s, p, frame, transport, material).0.store, p), LastValid(s2.store, p);
    var t := WireFreshness(frame, f, m);
    AcceptedIsCongruent(c, s, p, frame, transport, material, t);
    AcceptedExactlyInWindow(l, c.window, Modulus(c), t);
    ReplayDistance(l, c.window, Modulus(c), t, v);
  }

  // ---------- the bound is attained ----------

  /** The value n windows ahead of v. */
  function Ahead(v: int, window: int, n: nat): int {
    if n == 0 then v else Ahead(v, window, n - 1) + window
  }

  lemma {:induction false} AheadIs(v: int, window: int, n: nat)
    ensures Ahead(v, window, n) == v + window * n
  {
    if n > 0 {
      AheadIs(v, window, n - 1);
      Distribute(window, n - 1);
    }
  }

  /** The frame of a sender that is n windows ahead of v. */
  function JumpOp(c: Config, p: string, v: int, n: nat, a: Bytes, transport: Transport, material: Bytes,
                  f: nat, m: nat, k: Bytes): (op: Op)
    ensures !op.ResyncOp?
  {
    ReceiveOp(p, FrameFor(c, Ahead(v, c.window, n), a, f, m, k), transport, material)
  }

  /** The frames of a sender that is always a whole window ahead of the receiver, which starts from v. */
  ghost predicate Jumps(c: Config, ops: seq<Op>, p: string, v: int, a: Bytes, transport: Transport, material: Bytes,
                        f: nat, m: nat, k: Bytes)
  {
    forall i :: 0 <= i < |ops| ==> ops[i] == JumpOp(c, p, v, i + 1, a, transport, material, f, m, k)
  }

  /** At last valid value l the receiver can take jumps: operational, field and modulus equally wide, payload fits. */
  ghost predicate JumpReady(c: Config, s: State, l: int, p: string, a: Bytes, transport: Transport, material: Bytes,
                            f: nat, m: nat, k: Bytes)
  {
    && LastValid(s.store, p) == l
    && Operational(c, s, p, transport, material, f, m, k)
    && f == c.freshnessLength && 0 < f + m && m <= 32 && 1 <= c.window <= Modulus(c)
    && (transport.ClassicCan? ==> |a| == CLASSIC_CAN_PAYLOAD)
  }

  lemma TakeJump(c: Config, s: State, p: string, v: int, a: Bytes, transport: Transport, material: Bytes,
                 f: nat, m: nat, k: Bytes)
    requires JumpReady(c, s, v - c.window, p, a, transport, material, f, m, k)
    ensures var (s', r) := Receive(c, s, p, FrameFor(c, v, a, f, m, k), transport, material);
            r.Accepted? && JumpReady(c, s', v, p, a, transport, material, f, m, k)
  {
    var frame := FrameFor(c, v, a, f, m, k);
    FrameCarries(c, p, v, a, transport, f, m, k);
    TruncationInverted(LastValid(s.store, p), c.window, Modulus(c), v);
    FrameOutcome(c, s, p, frame, v, a, transport, material, f, m, k);
    ReceiveKeepsOperational(c, s, p, frame, transport, material, f, m, k);
  }

  lemma JumpTaken(c: Config, s: State, p: string, v: int, n: nat, a: Bytes, transport: Transport, material: Bytes,
                  f: nat, m: nat, k: Bytes, op: Op)
    requires op == JumpOp(c, p, v, n + 1, a, transport, material, f, m, k)
    requires JumpReady(c, s, Ahead(v, c.window, n), p, a, transport, material, f, m, k)
    ensures AcceptsFor(c, s, op, p)
    ensures JumpReady(c, Step(c, s, op), Ahead(v, c.window, n + 1), p, a, transport, material, f, m, k)
  {
    TakeJump(c, s, p, Ahead(v, c.window, n + 1), a, transport, material, f, m, k);
  }

  /** n jumps are n acceptances and raise the last valid value by n windows. */
  lemma {:induction false} JumpsOutcome(c: Config, s: State, ops: seq<Op>, v: int, p: string, a: Bytes,
                                        transport: Transport, material: Bytes, f: nat, m: nat, k: Bytes)
    requires JumpReady(c, s, v, p, a, transport, material, f, m, k)
    requires Jumps(c, ops, p, v, a, transport, material, f, m, k)
    ensures Acceptances(c, s, ops, p) == |ops|
    ensures JumpReady(c, Run(c, s, ops), Ahead(v, c.window, |ops|), p, a, transport, material, f, m, k)
  {
    if ops != [] {
      var n := |ops| - 1;
      JumpsOutcome(c, s, ops[..n], v, p, a, transport, material, f, m, k);
      JumpTaken(c, Run(c, s, ops[..n]), p, v, n, a, transport, material, f, m, k, ops[n]);
    }
  }

  /**
   With wire field and modulus equally wide, n acceptances of a window each,
   covering the modulus but for less than a window, bring the recorded frame
   back: it is accepted a second time, although no resync happened.
   */
  lemma BoundAttained(c: Config, s: State, l: int, p: string, frame: Bytes, transport: Transport, material: Bytes,
                      ops: seq<Op>, a: Bytes, f: nat, m: nat, k: Bytes)
    requires JumpReady(c, s, l, p, a, transport, material, f, m, k)
    requires Receive(c, s, p, frame, transport, material).1.Accepted?
    requires var v := LastValid(Receive(c, s, p, frame, transport, material).0.store, p);
             Jumps(c, ops, p, v, a, transport, material, f, m, k)
    requires Modulus(c) - c.window <= c.window * |ops| < Modulus(c)
    ensures var s1 := Receive(c, s, p, frame, transport, material).0;
            && NoResync(ops, p) && Acceptances(c, s1, ops, p) == |ops|
            && Receive(c, Run(c, s1, ops), p, frame, transport, material).1
               == Receive(c, s, p, frame, transport, material).1
  {
    var s1 := Receive(c, s, p, frame, transport, material).0;
    var v := LastValid(s1.store, p);
    ReceiveKeepsOperational(c, s, p, frame, transport, material, f, m, k);
    AheadIs(v, c.window, |ops|);
    JumpsOutcome(c, s1, ops, v, p, a, transport, material, f, m, k);
    RecordedFrameReplays(c, s, p, frame, transport, material, Run(c, s1, ops), material, f, m, k);
  }
}
