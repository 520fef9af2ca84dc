/** What the receive and transmit operations guarantee, one call and whole runs. */
module SecOCProtocol {
  import opened Arith
  import opened Bytes
  import opened Wrappers
  import opened SecurityProfile
  import opened PduManager
  import opened Freshness
  import opened Keys
  import opened Policy
  import opened CanBus
  import opened SecOCModel

  /** The key material an operation would use under this id, created on demand; None if it cannot be used. */
  function KeyMaterial(s: State, keyId: string, material: Bytes): Option<Bytes> {
    if s.failMode then None
    else if keyId !in s.keys then Some(material)
    else match s.keys[keyId]
      case Symmetric(k) => Some(k)
      case EcPrivate => None
  }

  /** The PDU's lengths on a transport, the key material it authenticates with, and that its freshness can be read. */
  ghost predicate Operational(c: Config, s: State, pduId: string, transport: Transport, material: Bytes,
                              f: nat, m: nat, k: Bytes)
  {
    && pduId in c.profiles
    && c.profiles[pduId].TruncationLengths(transport) == Some((f, m))
    && Readable(s.store, pduId)
    && KeyOf(c, s.store, pduId).Some?
    && KeyMaterial(s, KeyOf(c, s.store, pduId).value, material) == Some(k)
  }

  // ---------- exact acceptance ----------

  predicate WellFormed(frame: Bytes, f: nat, m: nat, transport: Transport) {
    |frame| >= f + m && (transport.ClassicCan? ==> |frame| == f + m + CLASSIC_CAN_PAYLOAD)
  }

  function WireFreshness(frame: Bytes, f: nat, m: nat): nat
    requires |frame| >= f + m
  {
    FromBytes(frame[|frame| - f - m..|frame| - m])
  }

  ghost predicate Fresh(l: int, window: int, modulus: int, t: int)
    requires modulus > 0
  {
    exists v :: l < v <= l + window && v % modulus == t
  }

  /** The trailing bytes are the truncated HMAC of exactly the bytes before them. */
  predicate Authentic(hmac: HmacFn, k: Bytes, frame: Bytes, m: nat)
    requires m <= |frame|
  {
    frame[|frame| - m..] == Prefix(hmac(k, frame[..|frame| - m]), m)
  }

  /** The trailing bytes are the truncated HMAC that the receiver computes for the full value v. */
  predicate Verifies(hmac: HmacFn, k: Bytes, frame: Bytes, f: nat, m: nat, v: int)
    requires f + m <= |frame|
  {
    frame[|frame| - m..] == Prefix(hmac(k, MacInput(frame[..|frame| - f - m], v, f)), m)
  }

  /** The receiver recomputes the MAC over precisely the bytes it received iff the full value truncates to the field. */
  lemma MacInputIsWirePrefix(frame: Bytes, f: nat, m: nat, v: int)
    requires |frame| >= f + m
    ensures MacInput(frame[..|frame| - f - m], v, f) == frame[..|frame| - m]
       <==> v % Capacity(f) == WireFreshness(frame, f, m)
  {
    var n := |frame|;
    var field, own := frame[n - f - m..n - m], ToBytes(Truncated(v, f), f);
    assert frame[..n - f - m] + field == frame[..n - m];
    FromToBytes(Truncated(v, f), f);
    if own == field {
    } else {
      assert FromBytes(field) == Truncated(v, f) ==> own == field by {
        ToFromBytes(field);
      }
      assert (frame[..n - f - m] + own)[n - f - m..] == own && frame[..n - m][n - f - m..] == field;
    }
  }

  /** Which is so for every value the receiver reconstructs, unless the wire field is wider than the modulus. */
  lemma CongruentTruncates(frame: Bytes, f: nat, m: nat, full: nat, v: int)
    requires |frame| >= f + m && f <= full
    requires v % Capacity(full) == WireFreshness(frame, f, m)
    ensures v % Capacity(f) == WireFreshness(frame, f, m)
  {
    FromBytesBound(frame[|frame| - f - m..|frame| - m]);
    Pow2Monotone(8 * f, 8 * full);
    ModOfMod(v, Capacity(f), Capacity(full));
    DivModUnique(WireFreshness(frame, f, m), Capacity(f), 0, WireFreshness(frame, f, m));
  }

  /**
   For f <= F and a non-empty trailer a frame is accepted exactly when it
   parses, some value of the window is congruent to its freshness field, and
   its last m bytes authenticate all bytes before them; otherwise the first
   of these that fails is the reason.
   */
  lemma ExactAcceptance(c: Config, s: State, p: string, frame: Bytes, transport: Transport, material: Bytes,
                        f: nat, m: nat, k: Bytes)
    requires Operational(c, s, p, transport, material, f, m, k)
    requires f <= c.freshnessLength && f + m > 0
    ensures var (s', r) := Receive(c, s, p, frame, transport, material);
            var l := LastValid(s.store, p);
            && !r.Raised?
            && (r == Rejected(MalformedStructure) <==> !WellFormed(frame, f, m, transport))
            && (WellFormed(frame, f, m, transport) ==>
                 var t := WireFreshness(frame, f, m);
                 && (r == Rejected(FreshnessOutOfWindow) <==> !Fresh(l, c.window, Modulus(c), t))
                 && (r == Rejected(MacMismatch)
                     <==> Fresh(l, c.window, Modulus(c), t) && !Authentic(c.hmac, k, frame, m))
                 && (r.Accepted? <==> Fresh(l, c.window, Modulus(c), t) && Authentic(c.hmac, k, frame, m))
                 && (r.Accepted? ==> r.payload == frame[..|frame| - f - m]))
  {
    if WellFormed(frame, f, m, transport) {
      ReceiveDecides(c, s, p, frame, transport, material, f, m, k);
      FreshOrNot(c, LastValid(s.store, p), frame, f, m, k, transport);
    }
  }

  /** What the receiver decides with, for f <= F, in terms of the window and the received bytes. */
  lemma FreshOrNot(c: Config, l: int, frame: Bytes, f: nat, m: nat, k: Bytes, transport: Transport)
    requires f <= c.freshnessLength && f + m > 0 && WellFormed(frame, f, m, transport)
    ensures var t := WireFreshness(frame, f, m);
            var v := Validate(l, c.window, Modulus(c), t);
            && (v.Some? <==> Fresh(l, c.window, Modulus(c), t))
            && (v.Some? ==> (Verifies(c.hmac, k, frame, f, m, v.value) <==> Authentic(c.hmac, k, frame, m)))
  {
    var t := WireFreshness(frame, f, m);
    ParseSplits(frame, f, m, transport);
    Pow2Monotone(8 * f, 8 * c.freshnessLength);
    AcceptedExactlyInWindow(l, c.window, Modulus(c), t);
    var v := Validate(l, c.window, Modulus(c), t);
    if v.Some? {
      DivModUnique(t, Modulus(c), 0, t);
      CongruentTruncates(frame, f, m, c.freshnessLength, v.value);
      MacInputIsWirePrefix(frame, f, m, v.value);
    }
  }

  /** The verdict on a well-formed frame, whatever the lengths: windowed reconstruction, then the MAC for that value. */
  lemma ReceiveDecides(c: Config, s: State, p: string, frame: Bytes, transport: Transport, material: Bytes,
                       f: nat, m: nat, k: Bytes)
    requires Operational(c, s, p, transport, material, f, m, k)
    requires f + m > 0 && WellFormed(frame, f, m, transport)
    ensures var r := Receive(c, s, p, frame, transport, material).1;
            match Validate(LastValid(s.store, p), c.window, Modulus(c), WireFreshness(frame, f, m))
            case None => r == Rejected(FreshnessOutOfWindow)
            case Some(v) =>
              r == if Verifies(c.hmac, k, frame, f, m, v) then Accepted(frame[..|frame| - f - m])
                   else Rejected(MacMismatch)
  {
    ParseSplits(frame, f, m, transport);
  }

  // ---------- effects ----------

  /** The freshness value a frame carries on the wire, if it parses. */
  function WireValue(c: Config, p: string, frame: Bytes, transport: Transport): Option<nat> {
    if p !in c.profiles then None
    else match c.profiles[p].TruncationLengths(transport)
      case None => None
      case Some((f, m)) =>
        match ParseFrame(frame, f, m, transport)
        case Malformed => None
        case Parsed(_, t, _) => Some(t)
  }

  /** The full value the receiver reconstructs for a frame, if its cell can be read and the frame is fresh. */
  function FullValue(c: Config, s: State, p: string, frame: Bytes, transport: Transport): Option<int> {
    match WireValue(c, p, frame, transport)
    case None => None
    case Some(t) => if !Readable(s.store, p) then None else Validate(LastValid(s.store, p), c.window, Modulus(c), t)
  }

  /** Acceptance commits the reconstructed value, republishes the frame and leaves the fault state alone. */
  lemma AcceptedCommits(c: Config, s: State, p: string, frame: Bytes, transport: Transport, material: Bytes)
    requires Receive(c, s, p, frame, transport, material).1.Accepted?
    ensures var s' := Receive(c, s, p, frame, transport, material).0;
            && FullValue(c, s, p, frame, transport).Some?
            && s'.store == Commit(s.store, p, FullValue(c, s, p, frame, transport).value)
            && s'.bus == Publish(s.bus, p, frame) && s'.guard == s.guard && s'.failMode == s.failMode
  {}

  /** So the last valid value rises, by at most the window, to the value the frame stands for; no other PDU's moves. */
  lemma AcceptedAdvances(c: Config, s: State, p: string, frame: Bytes, transport: Transport, material: Bytes, q: string)
    requires Receive(c, s, p, frame, transport, material).1.Accepted?
    ensures var s' := Receive(c, s, p, frame, transport, material).0;
            && FullValue(c, s, p, frame, transport) == Some(LastValid(s'.store, p))
            && 0 < LastValid(s'.store, p) - LastValid(s.store, p) <= c.window
            && (q != p ==> LastValid(s'.store, q) == LastValid(s.store, q))
  {
    AcceptedCommits(c, s, p, frame, transport, material);
    CommitIsLocal(s.store, p, FullValue(c, s, p, frame, transport).value, q);
  }

  /** A frame that is not accepted moves no freshness value and reaches no bus; only a rejection is counted. */
  lemma OtherwiseKept(c: Config, s: State, p: string, frame: Bytes, transport: Transport, material: Bytes)
    ensures var (s', r) := Receive(c, s, p, frame, transport, material);
            && s'.failMode == s.failMode
            && (!r.Accepted? ==> s'.store == s.store && s'.bus == s.bus)
            && (r.Rejected? ==> s'.guard == Reject(s.guard, p, r.reason))
            && (r.Raised? ==> s'.guard == s.guard)
  {}

  // ---------- transmit, then receive ----------

  /**
   The receiver finds the value after l fresh: for f <= F while its residue by
   the modulus fits the wire field, for f > F while l's own residue by the wire
   capacity is still below the modulus, or the wire field just wraps.
   */
  predicate NextFits(l: int, f: nat, full: nat) {
    if f <= full then (l + 1) % Capacity(full) < Capacity(f)
    else l % Capacity(f) < Capacity(full) || (l + 1) % Capacity(f) == 0
  }

  /** Then the truncation of l + 1 is reconstructed as l + 1; otherwise it is out of the window. */
  lemma NextIsFresh(l: int, window: int, f: nat, full: nat)
    requires 1 <= window <= Capacity(f) && window <= Capacity(full)
    ensures Validate(l, window, Capacity(full), Truncated(l + 1, f))
         == if NextFits(l, f, full) then Some(l + 1) else None
  {
    if f <= full {
      NextFreshNarrow(l, window, f, full);
    } else {
      Pow2Monotone(8 * full, 8 * f);
      NextFreshWide(l, window, Capacity(f), Capacity(full));
    }
  }

  lemma NextFreshNarrow(l: int, window: int, f: nat, full: nat)
    requires f <= full && 1 <= window <= Capacity(f)
    ensures Validate(l, window, Capacity(full), Truncated(l + 1, f))
         == if (l + 1) % Capacity(full) < Capacity(f) then Some(l + 1) else None
  {
    var t, d, md := Truncated(l + 1, f), Capacity(f), Capacity(full);
    Pow2Monotone(8 * f, 8 * full);
    ModOfMod(l + 1, d, md);
    if (l + 1) % md < d {
      DivModUnique((l + 1) % md, d, 0, (l + 1) % md);
      TruncationInverted(l, window, md, l + 1);
    } else {
      AcceptedExactlyInWindow(l, window, md, t);
      if v :| l < v <= l + window && v % md == t {
        ModOfMod(v, d, md);
        DivModUnique(t, d, 0, t);
        assert v != l + 1;
        CongruentApart(l + 1, v, d);
        assert false;
      }
    }
  }

  /** A wire capacity b that is a multiple of the modulus. */
  lemma NextFreshWide(l: int, window: int, b: int, modulus: int)
    requires 1 <= window <= modulus && b > 0 && b % modulus == 0
    ensures Validate(l, window, modulus, (l + 1) % b)
         == if l % b < modulus || (l + 1) % b == 0 then Some(l + 1) else None
  {
    var r := l % b;
    DivMod(l, b);
    ModOfMod(l, modulus, b);
    DivMod(l, modulus);
    DivMod(r, modulus);
    if r + 1 == b {
      DivModUnique(l + 1, b, l / b + 1, 0);
      assert (l / b + 1) * b == l / b * b + b;
      ModOfMod(l + 1, modulus, b);
      TruncationInverted(l, window, modulus, l + 1);
      DivModUnique(0, modulus, 0, 0);
    } else {
      DivModUnique(l + 1, b, l / b, r + 1);
      if r < modulus {
        DivModUnique(r, modulus, 0, r);
      } else {
        MulLe(1, r / modulus, modulus);
      }
    }
  }

  lemma PaddedLength(authentic: Bytes, transport: Transport)
    requires transport.ClassicCan? ==> |authentic| <= CLASSIC_CAN_PAYLOAD
    ensures transport.ClassicCan? ==> |Padded(authentic, transport)| == CLASSIC_CAN_PAYLOAD
    ensures authentic <= Padded(authentic, transport)
    ensures transport.CanFd? ==> Padded(authentic, transport) == authentic
    ensures forall i :: |authentic| <= i < |Padded(authentic, transport)| ==> Padded(authentic, transport)[i] == 0
  {}

  /** The frame for the full value v, authenticated with key material k. */
  function FrameFor(c: Config, v: int, a: Bytes, f: nat, m: nat, k: Bytes): Bytes {
    Build(a, v, Prefix(c.hmac(k, MacInput(a, v, f)), m), f)
  }

  /** A transmission leaves the store alone and leaves the PDU's key in place for the receiver. */
  lemma TransmitBuilds(c: Config, s: State, p: string, authentic: Bytes, transport: Transport,
                       material: Bytes, slow: bool, material': Bytes, f: nat, m: nat, k: Bytes)
    requires Operational(c, s, p, transport, material, f, m, k)
    requires transport.ClassicCan? ==> |authentic| <= CLASSIC_CAN_PAYLOAD
    ensures var (s', r) := Transmit(c, s, p, authentic, transport, material, slow);
            && r == Sent(FrameFor(c, LastValid(s.store, p) + 1, Padded(authentic, transport), f, m, k))
            && s'.store == s.store && s'.bus == s.bus && s'.failMode == s.failMode
            && s'.guard.counts == s.guard.counts && s'.guard.locked == s.guard.locked && s'.guard.ecu == s.guard.ecu
            && (!slow ==> s'.guard == s.guard)
            && Operational(c, s', p, transport, material', f, m, k)
  {}

  lemma BuiltFrame(a: Bytes, v: int, mac: Bytes, f: nat, m: nat)
    requires |mac| == m
    ensures var frame := Build(a, v, mac, f);
            && |frame| == |a| + f + m
            && WireFreshness(frame, f, m) == Truncated(v, f)
            && frame[..|frame| - m] == MacInput(a, v, f)
            && frame[|frame| - m..] == mac
            && frame[..|frame| - f - m] == a
  {
    SliceParts(a, ToBytes(Truncated(v, f), f), mac);
    FromToBytes(Truncated(v, f), f);
    var frame := Build(a, v, mac, f);
    assert |frame| - f - m == |frame| - (f + m);
    assert frame[..|frame| - m] == MacInput(a, v, f);
  }

  /** The frame carries payload a and the truncation of v, authenticated with k. */
  ghost predicate Carries(c: Config, p: string, frame: Bytes, v: int, a: Bytes, transport: Transport,
                          f: nat, m: nat, k: Bytes)
  {
    && WellFormed(frame, f, m, transport)
    && WireFreshness(frame, f, m) == Truncated(v, f)
    && Authentic(c.hmac, k, frame, m)
    && frame[..|frame| - f - m] == a
    && WireValue(c, p, frame, transport) == Some(Truncated(v, f))
  }

  lemma FrameCarries(c: Config, p: string, v: int, a: Bytes, transport: Transport, f: nat, m: nat, k: Bytes)
    requires p in c.profiles && c.profiles[p].TruncationLengths(transport) == Some((f, m))
    requires transport.ClassicCan? ==> |a| == CLASSIC_CAN_PAYLOAD
    requires 0 < f + m && m <= 32
    ensures Carries(c, p, FrameFor(c, v, a, f, m, k), v, a, transport, f, m, k)
  {
    var mac := Prefix(c.hmac(k, MacInput(a, v, f)), m);
    BuiltFrame(a, v, mac, f, m);
    PositiveTrailer(a, v, mac, f, m, transport);
  }

  lemma FrameVerdict(c: Config, s: State, p: string, frame: Bytes, v: int, a: Bytes, transport: Transport,
                     material: Bytes, f: nat, m: nat, k: Bytes)
    requires Operational(c, s, p, transport, material, f, m, k) && 0 < f + m
    requires Carries(c, p, frame, v, a, transport, f, m, k)
    ensures var taken := Validate(LastValid(s.store, p), c.window, Modulus(c), Truncated(v, f));
            var r := Receive(c, s, p, frame, transport, material).1;
            && (taken == Some(v) ==> r == Accepted(a) && FullValue(c, s, p, frame, transport) == Some(v))
            && (taken == None ==> r == Rejected(FreshnessOutOfWindow))
  {
    ReceiveDecides(c, s, p, frame, transport, material, f, m, k);
    CarriesVerifies(c, p, frame, v, a, transport, f, m, k);
  }

  lemma CarriesVerifies(c: Config, p: string, frame: Bytes, v: int, a: Bytes, transport: Transport,
                        f: nat, m: nat, k: Bytes)
    requires Carries(c, p, frame, v, a, transport, f, m, k)
    ensures Verifies(c.hmac, k, frame, f, m, v)
  {
    MacInputIsWirePrefix(frame, f, m, v);
  }

  /** A frame for v is taken as v where its field is reconstructed as v; not reconstructed, it is out of the window. */
  lemma FrameOutcome(c: Config, s: State, p: string, frame: Bytes, v: int, a: Bytes, transport: Transport,
                     material: Bytes, f: nat, m: nat, k: Bytes)
    requires Operational(c, s, p, transport, material, f, m, k) && 0 < f + m
    requires Carries(c, p, frame, v, a, transport, f, m, k)
    ensures var taken := Validate(LastValid(s.store, p), c.window, Modulus(c), Truncated(v, f));
            var (s', r) := Receive(c, s, p, frame, transport, material);
            && (taken == Some(v) ==>
                  && r == Accepted(a) && LastValid(s'.store, p) == v
                  && s'.bus == Publish(s.bus, p, frame) && s'.guard == s.guard)
            && (taken == None ==> r == Rejected(FreshnessOutOfWindow) && s'.store == s.store && s'.bus == s.bus)
  {
    FrameVerdict(c, s, p, frame, v, a, transport, material, f, m, k);
    OtherwiseKept(c, s, p, frame, transport, material);
    if Receive(c, s, p, frame, transport, material).1.Accepted? {
      AcceptedAdvances(c, s, p, frame, transport, material, p);
      AcceptedCommits(c, s, p, frame, transport, material);
    }
  }

  /** The receiver's verdict on the frame for the next value, and what it leaves behind. */
  lemma NextFrameOutcome(c: Config, s: State, p: string, frame: Bytes, a: Bytes, transport: Transport,
                         material: Bytes, f: nat, m: nat, k: Bytes)
    requires Operational(c, s, p, transport, material, f, m, k) && 0 < f + m
    requires 1 <= c.window <= Capacity(f) && c.window <= Modulus(c)
    requires Carries(c, p, frame, LastValid(s.store, p) + 1, a, transport, f, m, k)
    ensures var l := LastValid(s.store, p);
            var (s', r) := Receive(c, s, p, frame, transport, material);
            if NextFits(l, f, c.freshnessLength)
            then r == Accepted(a) && LastValid(s'.store, p) == l + 1
                 && s'.bus == Publish(s.bus, p, frame) && s'.guard == s.guard
            else r == Rejected(FreshnessOutOfWindow) && s'.store == s.store && s'.bus == s.bus
  {
    NextIsFresh(LastValid(s.store, p), c.window, f, c.freshnessLength);
    FrameOutcome(c, s, p, frame, LastValid(s.store, p) + 1, a, transport, material, f, m, k);
  }

  /** What a transmission sends, and that it leaves store and key ready for the receiver. */
  lemma TransmitSends(c: Config, s: State, p: string, authentic: Bytes, transport: Transport,
                      material: Bytes, slow: bool, material': Bytes, f: nat, m: nat, k: Bytes)
    requires Operational(c, s, p, transport, material, f, m, k)
    requires transport.ClassicCan? ==> |authentic| <= CLASSIC_CAN_PAYLOAD
    requires 0 < f + m && m <= 32
    ensures var (s', r) := Transmit(c, s, p, authentic, transport, material, slow);
            && r.Sent?
            && Carries(c, p, r.frame, LastValid(s.store, p) + 1, Padded(authentic, transport), transport, f, m, k)
            && s'.store == s.store && s'.bus == s.bus
            && (!slow ==> s'.guard == s.guard)
            && Operational(c, s', p, transport, material', f, m, k)
  {
    TransmitBuilds(c, s, p, authentic, transport, material, slow, material', f, m, k);
    PaddedLength(authentic, transport);
    FrameCarries(c, p, LastValid(s.store, p) + 1, Padded(authentic, transport), transport, f, m, k);
  }

  /**
   A frame built at last valid value l is accepted at l exactly when the next
   value fits, whatever the widths of wire field and modulus. Then the payload
   comes back and the last valid value becomes l + 1; otherwise the frame is
   rejected as out of the window and the last valid value stays.
   */
  lemma TransmitThenReceive(c: Config, s: State, p: string, authentic: Bytes, transport: Transport,
                            material: Bytes, slow: bool, material': Bytes, f: nat, m: nat, k: Bytes)
    requires Operational(c, s, p, transport, material, f, m, k)
    requires transport.ClassicCan? ==> |authentic| <= CLASSIC_CAN_PAYLOAD
    requires 0 < f + m && m <= 32 && 1 <= c.window <= Capacity(f) && c.window <= Modulus(c)
    ensures var (s1, sent) := Transmit(c, s, p, authentic, transport, material, slow);
            && sent.Sent?
            && var (s2, r) := Receive(c, s1, p, sent.frame, transport, material');
               var l := LastValid(s.store, p);
               if NextFits(l, f, c.freshnessLength)
               then r == Accepted(Padded(authentic, transport)) && LastValid(s2.store, p) == l + 1
               else r == Rejected(FreshnessOutOfWindow) && s2.store == s.store
  {
    TransmitSends(c, s, p, authentic, transport, material, slow, material', f, m, k);
    var (s1, sent) := Transmit(c, s, p, authentic, transport, material, slow);
    var a := Padded(authentic, transport);
    assert Carries(c, p, sent.frame, LastValid(s1.store, p) + 1, a, transport, f, m, k);
    NextFrameOutcome(c, s1, p, sent.frame, a, transport, material', f, m, k);
  }

  /** The frame carries this freshness field and is accepted. */
  predicate AcceptsField(c: Config, s: State, p: string, frame: Bytes, transport: Transport, material: Bytes, t: nat) {
    WireValue(c, p, frame, transport) == Some(t) && Receive(c, s, p, frame, transport, material).1.Accepted?
  }

  /** The committed value is the least one above the old that is congruent to the frame's freshness field. */
  lemma AcceptedTakesLeast(c: Config, s: State, p: string, frame: Bytes, transport: Transport, material: Bytes, t: nat)
    requires AcceptsField(c, s, p, frame, transport, material, t) && t < Modulus(c)
    ensures var s' := Receive(c, s, p, frame, transport, material).0;
            var v := LastValid(s'.store, p);
            && LastValid(s.store, p) < v && v % Modulus(c) == t
            && forall u :: u > LastValid(s.store, p) && u % Modulus(c) == t ==> v <= u
  {
    AcceptedAdvances(c, s, p, frame, transport, material, p);
    AcceptedExactlyInWindow(LastValid(s.store, p), c.window, Modulus(c), t);
    DivModUnique(t, Modulus(c), 0, t);
  }
}
