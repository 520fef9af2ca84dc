/** Immediate replays, repeated transmissions, and honest traffic until the wire field wraps. */
module HonestTraffic {
  import opened Arith
  import opened Bytes
  import opened SecurityProfile
  import opened PduManager
  import opened Freshness
  import opened Policy
  import opened SecOCModel
  import opened SecOCProtocol
  import opened SecOCRuns
  import opened Isolation

  /**
   The same frame again right after its acceptance is rejected, unless the
   window spans the whole modulus; then, for f <= F, it is accepted.
   */
  lemma ImmediateReplayVerdict(c: Config, s: State, p: string, frame: Bytes, transport: Transport, material: Bytes,
                               f: nat, m: nat, k: Bytes)
    requires Operational(c, s, p, transport, material, f, m, k) && f + m > 0
    requires Receive(c, s, p, frame, transport, material).1.Accepted?
    ensures var s1 := Receive(c, s, p, frame, transport, material).0;
            var r := Receive(c, s1, p, frame, transport, material).1;
            && (c.window < Modulus(c) ==> r == Rejected(FreshnessOutOfWindow))
            && (f <= c.freshnessLength ==> (r.Accepted? <==> c.window >= Modulus(c)))
  {
    var s1 := Receive(c, s, p, frame, transport, material).0;
    ParseSplits(frame, f, m, transport);
    AcceptedAdvances(c, s, p, frame, transport, material, p);
    ReceiveKeepsOperational(c, s, p, frame, transport, material, f, m, k);
    ReceiveDecides(c, s1, p, frame, transport, material, f, m, k);
    ImmediateReplay(LastValid(s.store, p), c.window, Modulus(c), WireFreshness(frame, f, m), LastValid(s1.store, p));
    if f <= c.freshnessLength {
      WireValueFits(c, p, frame, transport);
      ReceiveDecides(c, s, p, frame, transport, material, f, m, k);
      FreshOrNot(c, LastValid(s.store, p), frame, f, m, k, transport);
      FreshOrNot(c, LastValid(s1.store, p), frame, f, m, k, transport);
    }
  }

  /** Transmitting commits nothing, so until a frame is accepted the same payload gives the same frame again. */
  lemma TransmissionsRepeat(c: Config, s: State, p: string, authentic: Bytes, transport: Transport, material: Bytes,
                            slow: bool, f: nat, m: nat, k: Bytes)
    requires Operational(c, s, p, transport, material, f, m, k)
    requires transport.ClassicCan? ==> |authentic| <= CLASSIC_CAN_PAYLOAD
    ensures var (s1, first) := Transmit(c, s, p, authentic, transport, material, slow);
            var second := Transmit(c, s1, p, authentic, transport, material, slow).1;
            first.Sent? && second == first
  {
    TransmitBuilds(c, s, p, authentic, transport, material, slow, material, f, m, k);
    var s1 := Transmit(c, s, p, authentic, transport, material, slow).0;
    TransmitBuilds(c, s1, p, authentic, transport, material, slow, material, f, m, k);
  }

  /** One frame built and at once received by the same stack. */
  function Round(c: Config, s: State, p: string, authentic: Bytes, transport: Transport, material: Bytes):
    (State, Received)
  {
    var (s1, sent) := Transmit(c, s, p, authentic, transport, material, false);
    match sent
    case Failed(fault) => (s1, Raised(fault))
    case Sent(frame) => Receive(c, s1, p, frame, transport, material)
  }

  function Rounds(c: Config, s: State, p: string, payloads: seq<Bytes>, transport: Transport, material: Bytes):
    (r: (State, seq<Received>))
    ensures |r.1| == |payloads|
  {
    if payloads == [] then (s, [])
    else
      var n := |payloads| - 1;
      var (s', rs) := Rounds(c, s, p, payloads[..n], transport, material);
      var (s'', r) := Round(c, s', p, payloads[n], transport, material);
      (s'', rs + [r])
  }

  lemma RoundOutcome(c: Config, s: State, p: string, authentic: Bytes, transport: Transport, material: Bytes,
                     f: nat, m: nat, k: Bytes)
    requires Operational(c, s, p, transport, material, f, m, k)
    requires transport.ClassicCan? ==> |authentic| <= CLASSIC_CAN_PAYLOAD
    requires 0 < f + m && m <= 32 && 1 <= c.window <= Capacity(f) && c.window <= Modulus(c)
    ensures var (s', r) := Round(c, s, p, authentic, transport, material);
            var l := LastValid(s.store, p);
            && Operational(c, s', p, transport, material, f, m, k)
            && if NextFits(l, f, c.freshnessLength)
               then r == Accepted(Padded(authentic, transport)) && LastValid(s'.store, p) == l + 1
               else r == Rejected(FreshnessOutOfWindow) && LastValid(s'.store, p) == l
  {
    TransmitThenReceive(c, s, p, authentic, transport, material, false, material, f, m, k);
    TransmitBuilds(c, s, p, authentic, transport, material, false, material, f, m, k);
    var (s1, sent) := Transmit(c, s, p, authentic, transport, material, false);
    ReceiveKeepsOperational(c, s1, p, sent.frame, transport, material, f, m, k);
  }

  /** How many more values are taken before the wire field, or for a wider field the modulus, is used up. */
  function Room(c: Config, l: int, f: nat): nat {
    if f <= c.freshnessLength then
      var r := (l + 1) % Modulus(c);
      if r < Capacity(f) then Capacity(f) - r else 0
    else
      var r := l % Capacity(f);
      if r < Modulus(c) then Modulus(c) - r else if r + 1 == Capacity(f) then Modulus(c) + 1 else 0
  }

  lemma CapacityStrict(f: nat, full: nat)
    requires f < full
    ensures 256 * Capacity(f) <= Capacity(full)
  {
    CapacityStep(f);
    Pow2Monotone(8 * (f + 1), 8 * full);
  }

  /** With `done` values used up, the next one fits exactly while room is left. */
  lemma RoomRunsOut(c: Config, l: int, f: nat, done: nat)
    requires f != c.freshnessLength && done <= Room(c, l, f)
    ensures NextFits(l + done, f, c.freshnessLength) <==> done < Room(c, l, f)
  {
    if f < c.freshnessLength {
      CapacityStrict(f, c.freshnessLength);
      var r := (l + 1) % Modulus(c);
      DivMod(l + 1, Modulus(c));
      if r < Capacity(f) {
        DivModUnique(l + 1 + done, Modulus(c), (l + 1) / Modulus(c), r + done);
      }
    } else {
      CapacityStrict(c.freshnessLength, f);
      WideRoomRunsOut(l, Capacity(f), Modulus(c), done);
    }
  }

  lemma WideRoomRunsOut(l: int, b: int, modulus: int, done: nat)
    requires 0 < modulus && 256 * modulus <= b
    requires var r := l % b;
             done <= if r < modulus then modulus - r else if r + 1 == b then modulus + 1 else 0
    ensures (l + done) % b < modulus || (l + done + 1) % b == 0
       <==> done < if l % b < modulus then modulus - l % b else if l % b + 1 == b then modulus + 1 else 0
  {
    var r := l % b;
    DivMod(l, b);
    assert (l / b + 1) * b == l / b * b + b;
    if r < modulus {
      DivModUnique(l + done, b, l / b, r + done);
      DivModUnique(l + done + 1, b, l / b, r + done + 1);
    } else if r + 1 == b {
      if done > 0 {
        DivModUnique(l + done, b, l / b + 1, done - 1);
        DivModUnique(l + done + 1, b, l / b + 1, done);
      } else {
        DivModUnique(l + 1, b, l / b + 1, 0);
      }
    } else {
      DivModUnique(l + 1, b, l / b, r + 1);
    }
  }

  /** Whether the i-th honest frame after last valid value l is still within the room. */
  predicate Fits(c: Config, l: int, f: nat, i: nat) {
    f == c.freshnessLength || i < Room(c, l, f)
  }

  function HonestLast(c: Config, l: int, f: nat, n: nat): int {
    l + if f == c.freshnessLength || n <= Room(c, l, f) then n else Room(c, l, f)
  }

  function HonestVerdict(c: Config, l: int, f: nat, i: nat, payload: Bytes, transport: Transport): Received {
    if Fits(c, l, f, i) then Accepted(Padded(payload, transport)) else Rejected(FreshnessOutOfWindow)
  }

  lemma HonestNext(c: Config, l: int, f: nat, n: nat)
    ensures NextFits(HonestLast(c, l, f, n), f, c.freshnessLength) <==> Fits(c, l, f, n)
    ensures HonestLast(c, l, f, n + 1) == HonestLast(c, l, f, n) + if Fits(c, l, f, n) then 1 else 0
  {
    if f != c.freshnessLength {
      RoomRunsOut(c, l, f, HonestLast(c, l, f, n) - l);
    }
  }

  lemma HonestStep(c: Config, s: State, l: int, n: nat, p: string, payload: Bytes, transport: Transport,
                   material: Bytes, f: nat, m: nat, k: Bytes)
    requires Operational(c, s, p, transport, material, f, m, k)
    requires transport.ClassicCan? ==> |payload| <= CLASSIC_CAN_PAYLOAD
    requires 0 < f + m && m <= 32 && 1 <= c.window <= Capacity(f) && c.window <= Modulus(c)
    requires LastValid(s.store, p) == HonestLast(c, l, f, n)
    ensures var (s', r) := Round(c, s, p, payload, transport, material);
            && Operational(c, s', p, transport, material, f, m, k)
            && r == HonestVerdict(c, l, f, n, payload, transport)
            && LastValid(s'.store, p) == HonestLast(c, l, f, n + 1)
  {
    RoundOutcome(c, s, p, payload, transport, material, f, m, k);
    HonestNext(c, l, f, n);
  }

  /** The setting of honest traffic on one PDU: its lengths, its key, payloads that fit, a window within the field. */
  ghost predicate HonestSetting(c: Config, s: State, p: string, payloads: seq<Bytes>, transport: Transport,
                                material: Bytes, f: nat, m: nat, k: Bytes)
  {
    && Operational(c, s, p, transport, material, f, m, k)
    && (transport.ClassicCan? ==> forall i :: 0 <= i < |payloads| ==> |payloads[i]| <= CLASSIC_CAN_PAYLOAD)
    && 0 < f + m && m <= 32 && 1 <= c.window <= Capacity(f) && c.window <= Modulus(c)
  }

  lemma {:induction false} HonestState(c: Config, s: State, p: string, payloads: seq<Bytes>, transport: Transport,
                                       material: Bytes, f: nat, m: nat, k: Bytes)
    requires HonestSetting(c, s, p, payloads, transport, material, f, m, k)
    ensures var s' := Rounds(c, s, p, payloads, transport, material).0;
            && Operational(c, s', p, transport, material, f, m, k)
            && LastValid(s'.store, p) == HonestLast(c, LastValid(s.store, p), f, |payloads|)
  {
    if payloads != [] {
      var n := |payloads| - 1;
      HonestState(c, s, p, payloads[..n], transport, material, f, m, k);
      var mid := Rounds(c, s, p, payloads[..n], transport, material).0;
      HonestStep(c, mid, LastValid(s.store, p), n, p, payloads[n], transport, material, f, m, k);
    }
  }

  lemma {:induction false} RoundsPrefix(c: Config, s: State, p: string, payloads: seq<Bytes>, transport: Transport,
                                        material: Bytes, i: nat)
    requires i < |payloads|
    ensures Rounds(c, s, p, payloads, transport, material).1[i]
         == Rounds(c, s, p, payloads[..i + 1], transport, material).1[i]
  {
    if i < |payloads| - 1 {
      RoundsPrefix(c, s, p, payloads[..|payloads| - 1], transport, material, i);
      assert payloads[..|payloads| - 1][..i + 1] == payloads[..i + 1];
    } else {
      assert payloads[..i + 1] == payloads;
    }
  }

  lemma LastVerdict(c: Config, s: State, p: string, payloads: seq<Bytes>, transport: Transport,
                    material: Bytes, f: nat, m: nat, k: Bytes)
    requires payloads != [] && HonestSetting(c, s, p, payloads, transport, material, f, m, k)
    ensures var n := |payloads| - 1;
            Rounds(c, s, p, payloads, transport, material).1[n]
            == HonestVerdict(c, LastValid(s.store, p), f, n, payloads[n], transport)
  {
    var n := |payloads| - 1;
    HonestState(c, s, p, payloads[..n], transport, material, f, m, k);
    var mid := Rounds(c, s, p, payloads[..n], transport, material).0;
    HonestStep(c, mid, LastValid(s.store, p), n, p, payloads[n], transport, material, f, m, k);
  }

  lemma HonestAt(c: Config, s: State, p: string, payloads: seq<Bytes>, transport: Transport,
                 material: Bytes, f: nat, m: nat, k: Bytes, i: nat)
    requires i < |payloads| && HonestSetting(c, s, p, payloads, transport, material, f, m, k)
    ensures Rounds(c, s, p, payloads, transport, material).1[i]
         == HonestVerdict(c, LastValid(s.store, p), f, i, payloads[i], transport)
  {
    RoundsPrefix(c, s, p, payloads, transport, material, i);
    LastVerdict(c, s, p, payloads[..i + 1], transport, material, f, m, k);
  }

  /**
   Honest traffic with a wire field as wide as the modulus is accepted for
   ever. With a narrower or a wider field exactly the first Room frames are
   accepted, and every later one is rejected as out of the window, with the
   last valid value stuck where the room ran out.
   */
  lemma HonestTraffic(c: Config, s: State, p: string, payloads: seq<Bytes>, transport: Transport,
                      material: Bytes, f: nat, m: nat, k: Bytes)
    requires HonestSetting(c, s, p, payloads, transport, material, f, m, k)
    ensures LastValid(Rounds(c, s, p, payloads, transport, material).0.store, p)
         == HonestLast(c, LastValid(s.store, p), f, |payloads|)
    ensures forall i :: 0 <= i < |payloads| ==>
              Rounds(c, s, p, payloads, transport, material).1[i]
              == HonestVerdict(c, LastValid(s.store, p), f, i, payloads[i], transport)
  {
    HonestState(c, s, p, payloads, transport, material, f, m, k);
    forall i | 0 <= i < |payloads| {
      HonestAt(c, s, p, payloads, transport, material, f, m, k, i);
    }
  }

  /** On the deployed Classic CAN profile a fresh receiver takes 255 frames and then no honest frame any more. */
  lemma ClassicCanStalls(c: Config, s: State, p: string, payloads: seq<Bytes>, material: Bytes, k: Bytes)
    requires HonestSetting(c, s, p, payloads, ClassicCan, material, 1, 3, k)
    requires c.freshnessLength == 2 && c.window == 16 && LastValid(s.store, p) == 0
    ensures forall i :: 0 <= i < |payloads| ==>
              (Rounds(c, s, p, payloads, ClassicCan, material).1[i].Accepted? <==> i < 255)
  {
    ClassicRoom(c);
    HonestTraffic(c, s, p, payloads, ClassicCan, material, 1, 3, k);
  }

  lemma ClassicRoom(c: Config)
    requires c.freshnessLength == 2 && c.window == 16
    ensures c.window <= Capacity(1) && Room(c, 0, 1) == 255
  {
    CapacityOfTwo();
  }
}
