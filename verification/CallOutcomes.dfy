/**
 What transmit_secured and receive_secured give in every state, from the data a
 caller can look up: profile, freshness cell, key record and HSM.
 */
module CallOutcomes {
  import opened Bytes
  import opened Wrappers
  import opened SecurityProfile
  import opened PduManager
  import opened Nvm
  import opened Freshness
  import opened Keys
  import opened Policy
  import opened CanBus
  import opened SecOCModel
  import opened SecOCProtocol

  // ---------- which key authenticates a PDU ----------

  /** With keys by record, the key id that the PDU's record gives; otherwise the one that its profile gives. */
  ghost predicate NamesKey(c: Config, store: Store, p: string, id: string)
    requires p in c.profiles
  {
    if c.managed then
      "key_meta_" + p in store && exists m: KeyMetadata :: IsRecord(store["key_meta_" + p], m) && m.keyId == id
    else c.profiles[p].keyId == id
  }

  lemma KeyOfIff(c: Config, store: Store, p: string, id: string)
    requires p in c.profiles
    ensures KeyOf(c, store, p) == Some(id) <==> NamesKey(c, store, p, id)
  {
    if c.managed && KeyMetaName(p) in store {
      var v := store[KeyMetaName(p)];
      if m: KeyMetadata :| IsRecord(v, m) && m.keyId == id {
        FromRecordIff(v, m);
      }
      if FromRecord(v).Some? {
        FromRecordIff(v, FromRecord(v).value);
      }
    }
  }

  /** The HSM has this material under the id, or would create it on demand. */
  predicate HoldsOrCreates(s: State, id: string, material: Bytes, k: Bytes) {
    && !s.failMode
    && (if id in s.keys then s.keys[id] == Symmetric(k) else k == material)
  }

  /** k is the material that frames of the PDU are authenticated with. */
  ghost predicate AuthenticatesWith(c: Config, s: State, p: string, material: Bytes, k: Bytes)
    requires p in c.profiles
  {
    exists id :: NamesKey(c, s.store, p, id) && HoldsOrCreates(s, id, material, k)
  }

  /** Everything in order: the profile has lengths, the cell a whole number, and there is a usable key. */
  ghost predicate InOrder(c: Config, s: State, p: string, transport: Transport, material: Bytes,
                          f: nat, m: nat, k: Bytes)
  {
    && p in c.profiles && HasLengths(c.profiles[p], transport, f, m)
    && WholeNumber(s.store, p)
    && AuthenticatesWith(c, s, p, material, k)
  }

  /** The PDU's freshness cell is absent, an integer or a truth value. */
  predicate WholeNumber(store: Store, p: string) {
    var name := "freshness_" + p + "_last_valid";
    name in store ==> store[name].Int? || store[name].Bool?
  }

  predicate HoldsFloat(store: Store, p: string) {
    var name := "freshness_" + p + "_last_valid";
    name in store && store[name].Float?
  }

  lemma InOrderIff(c: Config, s: State, p: string, transport: Transport, material: Bytes, f: nat, m: nat, k: Bytes)
    ensures Operational(c, s, p, transport, material, f, m, k) <==> InOrder(c, s, p, transport, material, f, m, k)
  {
    if p in c.profiles {
      LengthsAre(c.profiles[p], transport, f, m);
      UsableKeyIff(c, s, p, material, k);
    }
  }

  lemma UsableKeyIff(c: Config, s: State, p: string, material: Bytes, k: Bytes)
    requires p in c.profiles
    ensures KeyOf(c, s.store, p).Some? && KeyMaterial(s, KeyOf(c, s.store, p).value, material) == Some(k)
       <==> AuthenticatesWith(c, s, p, material, k)
  {
    if KeyOf(c, s.store, p).Some? {
      KeyOfIff(c, s.store, p, KeyOf(c, s.store, p).value);
    }
    if id :| NamesKey(c, s.store, p, id) && HoldsOrCreates(s, id, material, k) {
      KeyOfIff(c, s.store, p, id);
    }
  }

  // ---------- a rotation changes the key that is used ----------

  /** The state is in order for the PDU but for its key, and the HSM is available. */
  predicate Rekeyable(c: Config, s: State, p: string, transport: Transport, f: nat, m: nat) {
    && c.managed && p in c.profiles && HasLengths(c.profiles[p], transport, f, m)
    && WholeNumber(s.store, p) && !s.failMode
  }

  lemma RecordUsed(c: Config, s: State, r: KeyMetadata, k: Bytes, transport: Transport, material: Bytes,
                   f: nat, m: nat)
    requires Rekeyable(c, s, r.pduId, transport, f, m)
    ensures var s' := s.(store := SaveMetadata(s.store, r), keys := s.keys[r.keyId := Symmetric(k)]);
            Operational(c, s', r.pduId, transport, material, f, m, k)
            && LastValid(s'.store, r.pduId) == LastValid(s.store, r.pduId)
  {
    NamesDisjoint(r.pduId, r.pduId);
    RecordRoundTrip(r);
    LengthsAre(c.profiles[r.pduId], transport, f, m);
  }

  /**
   After a rotation of a PDU that has a record, frames are authenticated with
   the new material: the next frame is built with it, and a frame is accepted
   exactly if it parses, its field is reconstructed, and its MAC is that
   material's.
   */
  lemma RotationChangesKey(c: Config, s: State, p: string, keyId: string, k: Bytes, transport: Transport,
                           material: Bytes, slow: bool, authentic: Bytes, frame: Bytes, f: nat, m: nat)
    requires Rekeyable(c, s, p, transport, f, m) && 0 < f + m
    requires "key_meta_" + p in s.store && exists r: KeyMetadata :: IsRecord(s.store["key_meta_" + p], r)
    requires transport.ClassicCan? ==> |authentic| <= 4
    ensures AuthenticatedWith(c, Step(c, s, RotateOp(p, keyId, k)), LastValid(s.store, p), p, k, transport, material,
                              slow, authentic, frame, f, m)
  {
    var r: KeyMetadata :| IsRecord(s.store["key_meta_" + p], r);
    FromRecordIff(s.store["key_meta_" + p], r);
    RecordUsed(c, s, KeyMetadata(p, keyId, r.version + 1, Active), k, transport, material, f, m);
    OperationalAuthenticates(c, Step(c, s, RotateOp(p, keyId, k)), p, k, transport, material, slow, authentic, frame,
                             f, m);
  }

  /** After provisioning the same, whether or not the PDU had a record. */
  lemma ProvisionSetsKey(c: Config, s: State, p: string, keyId: string, k: Bytes, transport: Transport,
                         material: Bytes, slow: bool, authentic: Bytes, frame: Bytes, f: nat, m: nat)
    requires Rekeyable(c, s, p, transport, f, m) && 0 < f + m
    requires transport.ClassicCan? ==> |authentic| <= 4
    ensures AuthenticatedWith(c, Step(c, s, ProvisionOp(p, keyId, k)), LastValid(s.store, p), p, k, transport, material,
                              slow, authentic, frame, f, m)
  {
    RecordUsed(c, s, KeyMetadata(p, keyId, 1, Active), k, transport, material, f, m);
    OperationalAuthenticates(c, Step(c, s, ProvisionOp(p, keyId, k)), p, k, transport, material, slow, authentic,
                             frame, f, m);
  }

  /** Without records the material under the profile's key id is used, whatever records the store holds. */
  lemma ProfileKeyUsed(c: Config, s: State, p: string, k: Bytes, transport: Transport,
                       material: Bytes, slow: bool, authentic: Bytes, frame: Bytes, f: nat, m: nat)
    requires !c.managed && p in c.profiles && HasLengths(c.profiles[p], transport, f, m) && 0 < f + m
    requires WholeNumber(s.store, p) && HoldsOrCreates(s, c.profiles[p].keyId, material, k)
    requires transport.ClassicCan? ==> |authentic| <= 4
    ensures AuthenticatedWith(c, s, LastValid(s.store, p), p, k, transport, material, slow, authentic, frame, f, m)
  {
    assert NamesKey(c, s.store, p, c.profiles[p].keyId);
    InOrderIff(c, s, p, transport, material, f, m, k);
    OperationalAuthenticates(c, s, p, k, transport, material, slow, authentic, frame, f, m);
  }

  /** At last valid value l, what is sent carries k's MAC, and what is received is decided by it. */
  ghost predicate AuthenticatedWith(c: Config, s: State, l: int, p: string, k: Bytes, transport: Transport,
                                    material: Bytes, slow: bool, authentic: Bytes, frame: Bytes, f: nat, m: nat)
  {
    && Transmit(c, s, p, authentic, transport, material, slow).1
       == Sent(FrameFor(c, l + 1, Padded(authentic, transport), f, m, k))
    && (WellFormed(frame, f, m, transport) ==>
          var r := Receive(c, s, p, frame, transport, material).1;
          match Validate(l, c.window, Modulus(c), WireFreshness(frame, f, m))
          case None => r == Rejected(FreshnessOutOfWindow)
          case Some(v) => r == if Verifies(c.hmac, k, frame, f, m, v) then Accepted(frame[..|frame| - f - m])
                               else Rejected(MacMismatch))
  }

  lemma OperationalAuthenticates(c: Config, s: State, p: string, k: Bytes, transport: Transport,
                                 material: Bytes, slow: bool, authentic: Bytes, frame: Bytes, f: nat, m: nat)
    requires Operational(c, s, p, transport, material, f, m, k) && 0 < f + m
    requires transport.ClassicCan? ==> |authentic| <= 4
    ensures AuthenticatedWith(c, s, LastValid(s.store, p), p, k, transport, material, slow, authentic, frame, f, m)
  {
    TransmitBuilds(c, s, p, authentic, transport, material, slow, material, f, m, k);
    if WellFormed(frame, f, m, transport) {
      ReceiveDecides(c, s, p, frame, transport, material, f, m, k);
    }
  }

  // ---------- transmit_secured ----------

  ghost predicate Configured(c: Config, p: string, transport: Transport) {
    p in c.profiles && exists f, m :: HasLengths(c.profiles[p], transport, f, m)
  }

  ghost predicate HasKey(c: Config, s: State, p: string)
    requires p in c.profiles
  {
    exists id :: NamesKey(c, s.store, p, id)
  }

  ghost predicate HasUsableKey(c: Config, s: State, p: string, material: Bytes)
    requires p in c.profiles
  {
    exists k :: AuthenticatesWith(c, s, p, material, k)
  }

  predicate TooLong(authentic: Bytes, transport: Transport) {
    transport.ClassicCan? && |authentic| > 4
  }

  /** What is missing first, in the order in which the source finds out; None if nothing is. */
  ghost function FirstMissing(c: Config, s: State, p: string, authentic: Bytes, transport: Transport, material: Bytes):
    Option<Fault>
  {
    if p !in c.profiles then Some(NoProfile)
    else if TooLong(authentic, transport) then Some(PayloadTooLong)
    else if !WholeNumber(s.store, p) && !HoldsFloat(s.store, p) then Some(CorruptCell)
    else if !HasKey(c, s, p) then Some(NoKey)
    else if !Configured(c, p, transport) then Some(NoClassicLengths)
    else if HoldsFloat(s.store, p) then Some(CorruptCell)
    else if !HasUsableKey(c, s, p, material) then Some(CryptoFailed)
    else None
  }

  lemma HasKeyIff(c: Config, s: State, p: string)
    requires p in c.profiles
    ensures HasKey(c, s, p) <==> KeyOf(c, s.store, p).Some?
  {
    if KeyOf(c, s.store, p).Some? {
      KeyOfIff(c, s.store, p, KeyOf(c, s.store, p).value);
    }
    if id :| NamesKey(c, s.store, p, id) {
      KeyOfIff(c, s.store, p, id);
    }
  }

  lemma ConfiguredIff(c: Config, p: string, transport: Transport)
    requires p in c.profiles
    ensures Configured(c, p, transport) <==> c.profiles[p].TruncationLengths(transport).Some?
  {
    if c.profiles[p].TruncationLengths(transport).Some? {
      var (f, m) := c.profiles[p].TruncationLengths(transport).value;
      LengthsAre(c.profiles[p], transport, f, m);
    }
    if f, m :| HasLengths(c.profiles[p], transport, f, m) {
      LengthsAre(c.profiles[p], transport, f, m);
    }
  }

  /** A key is named and the HSM can compute an HMAC with it, exactly if some material authenticates. */
  lemma UsableIff(c: Config, s: State, p: string, material: Bytes)
    requires p in c.profiles
    ensures HasUsableKey(c, s, p, material)
       <==> KeyOf(c, s.store, p).Some? && KeyMaterial(s, KeyOf(c, s.store, p).value, material).Some?
  {
    if KeyOf(c, s.store, p).Some? && KeyMaterial(s, KeyOf(c, s.store, p).value, material).Some? {
      UsableKeyIff(c, s, p, material, KeyMaterial(s, KeyOf(c, s.store, p).value, material).value);
    }
    if k :| AuthenticatesWith(c, s, p, material, k) {
      UsableKeyIff(c, s, p, material, k);
    }
  }

  /**
   transmit_secured sends exactly if the PDU has a profile with lengths for the
   transport, a Classic CAN payload has at most four bytes, the freshness cell
   holds a whole number, and there is a usable key; then it sends the frame for
   the next value. Otherwise it raises for the first of these that is missing.
   */
  lemma TransmitOutcome(c: Config, s: State, p: string, authentic: Bytes, transport: Transport, material: Bytes,
                        slow: bool)
    ensures var r := Transmit(c, s, p, authentic, transport, material, slow).1;
            match FirstMissing(c, s, p, authentic, transport, material)
            case Some(fault) => r == Failed(fault)
            case None => r.Sent?
    ensures forall f, m, k ::
              InOrder(c, s, p, transport, material, f, m, k) && !TooLong(authentic, transport) ==>
                Transmit(c, s, p, authentic, transport, material, slow).1
                == Sent(FrameFor(c, LastValid(s.store, p) + 1, Padded(authentic, transport), f, m, k))
  {
    if p in c.profiles {
      HasKeyIff(c, s, p);
      ConfiguredIff(c, p, transport);
      UsableIff(c, s, p, material);
      TransmitFaults(c, s, p, authentic, transport, material, slow);
    }
    forall f, m, k | InOrder(c, s, p, transport, material, f, m, k) && !TooLong(authentic, transport)
      ensures Transmit(c, s, p, authentic, transport, material, slow).1
           == Sent(FrameFor(c, LastValid(s.store, p) + 1, Padded(authentic, transport), f, m, k))
    {
      InOrderIff(c, s, p, transport, material, f, m, k);
      TransmitBuilds(c, s, p, authentic, transport, material, slow, material, f, m, k);
    }
  }

  lemma TransmitFaults(c: Config, s: State, p: string, authentic: Bytes, transport: Transport, material: Bytes,
                       slow: bool)
    requires p in c.profiles
    ensures var r := Transmit(c, s, p, authentic, transport, material, slow).1;
            var key := KeyOf(c, s.store, p);
            if TooLong(authentic, transport) then r == Failed(PayloadTooLong)
            else if !WholeNumber(s.store, p) && !HoldsFloat(s.store, p) then r == Failed(CorruptCell)
            else if key.None? then r == Failed(NoKey)
            else if c.profiles[p].TruncationLengths(transport).None? then r == Failed(NoClassicLengths)
            else if HoldsFloat(s.store, p) then r == Failed(CorruptCell)
            else if KeyMaterial(s, key.value, material).None? then r == Failed(CryptoFailed)
            else r.Sent?
  {}

  /** With the four-byte trailer that reload insists on, every frame sent on Classic CAN has exactly eight bytes. */
  lemma ClassicFramesSentAreEightBytes(c: Config, s: State, p: string, authentic: Bytes, material: Bytes, slow: bool,
                                       f: nat, m: nat)
    requires p in c.profiles && HasLengths(c.profiles[p], ClassicCan, f, m) && f + m == 4
    ensures var r := Transmit(c, s, p, authentic, ClassicCan, material, slow).1;
            r.Sent? ==> |authentic| <= 4 && |r.frame| == 8
  {
    var r := Transmit(c, s, p, authentic, ClassicCan, material, slow).1;
    TransmitOutcome(c, s, p, authentic, ClassicCan, material, slow);
    if r.Sent? {
      var k :| AuthenticatesWith(c, s, p, material, k);
      assert InOrder(c, s, p, ClassicCan, material, f, m, k);
      PaddedLength(authentic, ClassicCan);
      FrameLength(c, LastValid(s.store, p) + 1, Padded(authentic, ClassicCan), f, m, k);
    }
  }

  lemma FrameLength(c: Config, v: int, a: Bytes, f: nat, m: nat, k: Bytes)
    requires m <= 32
    ensures |FrameFor(c, v, a, f, m, k)| == |a| + f + m
  {}

  // ---------- receive_secured ----------

  /**
   The verdict in every state, for a non-empty trailer: the first of the
   source's checks that the frame fails, or acceptance with its payload.
   */
  ghost predicate Decided(c: Config, s: State, p: string, frame: Bytes, transport: Transport, material: Bytes,
                          f: nat, m: nat, r: Received)
    requires p in c.profiles
  {
    if !WellFormed(frame, f, m, transport) then r == Rejected(MalformedStructure)
    else
      var t := WireFreshness(frame, f, m);
      if !WholeNumber(s.store, p) && !HoldsFloat(s.store, p) then r == Raised(CorruptCell)
      else if HoldsFloat(s.store, p) then
        if CheckCell(Cell(s.store, p), c.window, Modulus(c), t).OutOfWindow? then r == Rejected(FreshnessOutOfWindow)
        else r == Raised(if HasKey(c, s, p) then CorruptCell else NoKey)
      else match Validate(LastValid(s.store, p), c.window, Modulus(c), t)
        case None => r == Rejected(FreshnessOutOfWindow)
        case Some(v) =>
          if !HasKey(c, s, p) then r == Raised(NoKey)
          else if !HasUsableKey(c, s, p, material) then r == Raised(CryptoFailed)
          else exists k :: AuthenticatesWith(c, s, p, material, k)
                 && r == if Verifies(c.hmac, k, frame, f, m, v) then Accepted(frame[..|frame| - f - m])
                         else Rejected(MacMismatch)
  }

  lemma ReceiveOutcome(c: Config, s: State, p: string, frame: Bytes, transport: Transport, material: Bytes)
    ensures var r := Receive(c, s, p, frame, transport, material).1;
            && (p !in c.profiles ==> r == Raised(NoProfile))
            && (p in c.profiles && !Configured(c, p, transport) ==> r == Raised(NoClassicLengths))
            && (p in c.profiles ==> forall f, m :: HasLengths(c.profiles[p], transport, f, m) && f + m > 0 ==>
                  Decided(c, s, p, frame, transport, material, f, m, r))
  {
    if p in c.profiles {
      ConfiguredIff(c, p, transport);
      forall f, m | HasLengths(c.profiles[p], transport, f, m) && f + m > 0
        ensures Decided(c, s, p, frame, transport, material, f, m, Receive(c, s, p, frame, transport, material).1)
      {
        LengthsAre(c.profiles[p], transport, f, m);
        ReceiveDecided(c, s, p, frame, transport, material, f, m);
      }
    }
  }

  lemma ReceiveDecided(c: Config, s: State, p: string, frame: Bytes, transport: Transport, material: Bytes,
                       f: nat, m: nat)
    requires p in c.profiles && c.profiles[p].TruncationLengths(transport) == Some((f, m)) && f + m > 0
    ensures Decided(c, s, p, frame, transport, material, f, m, Receive(c, s, p, frame, transport, material).1)
  {
    HasKeyIff(c, s, p);
    UsableIff(c, s, p, material);
    ParseSplits(frame, f, m, transport);
    if WellFormed(frame, f, m, transport) && HasUsableKey(c, s, p, material) && WholeNumber(s.store, p) {
      var k := KeyMaterial(s, KeyOf(c, s.store, p).value, material).value;
      UsableKeyIff(c, s, p, material, k);
      ReceiveDecides(c, s, p, frame, transport, material, f, m, k);
    } else {
      ReceiveWithoutKey(c, s, p, frame, transport, material, f, m);
    }
  }

  lemma ReceiveWithoutKey(c: Config, s: State, p: string, frame: Bytes, transport: Transport, material: Bytes,
                          f: nat, m: nat)
    requires p in c.profiles && c.profiles[p].TruncationLengths(transport) == Some((f, m)) && f + m > 0
    ensures var r := Receive(c, s, p, frame, transport, material).1;
            var key := KeyOf(c, s.store, p);
            if !WellFormed(frame, f, m, transport) then r == Rejected(MalformedStructure)
            else
              match CheckCell(Cell(s.store, p), c.window, Modulus(c), WireFreshness(frame, f, m))
              case Unreadable => r == Raised(CorruptCell)
              case OutOfWindow => r == Rejected(FreshnessOutOfWindow)
              case FloatFull(_) => r == Raised(if key.None? then NoKey else CorruptCell)
              case Full(_) =>
                && (key.None? ==> r == Raised(NoKey))
                && (key.Some? && KeyMaterial(s, key.value, material).None? ==> r == Raised(CryptoFailed))
  {
    ParseSplits(frame, f, m, transport);
  }
}
