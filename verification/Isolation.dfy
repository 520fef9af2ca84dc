/** PDUs sharing one store and one key store do not influence each other's verdicts. */
module Isolation {
  import opened Bytes
  import opened Wrappers
  import opened SecurityProfile
  import opened Freshness
  import opened Nvm
  import opened Keys
  import opened Policy
  import opened SecOCModel
  import opened SecOCProtocol
  import opened SecOCRuns

  /** Everything of the state that the PDU's verdicts and fault count depend on. */
  ghost predicate SameFor(c: Config, s: State, s': State, q: string)
    requires q in c.profiles
  {
    && Cell(s'.store, q) == Cell(s.store, q)
    && FailureCount(s'.guard, q) == FailureCount(s.guard, q)
    && KeyOf(c, s'.store, q) == KeyOf(c, s.store, q)
    && s'.failMode == s.failMode
    && (KeyOf(c, s.store, q).Some? ==> SameKey(s, s', KeyOf(c, s.store, q).value))
  }

  ghost predicate SameKey(s: State, s': State, keyId: string) {
    (keyId in s'.keys <==> keyId in s.keys) && (keyId in s.keys ==> s'.keys[keyId] == s.keys[keyId])
  }

  lemma VerifyDetermined(c: Config, s: State, s': State, q: string, authentic: Bytes, v: int, mac: Bytes,
                         transport: Transport, material: Bytes)
    requires q in c.profiles && SameFor(c, s, s', q)
    ensures VerifyMac(c, s', q, authentic, v, mac, transport, material).1
         == VerifyMac(c, s, q, authentic, v, mac, transport, material).1
  {}

  /** That is all they depend on. */
  lemma VerdictDetermined(c: Config, s: State, s': State, q: string, frame: Bytes, transport: Transport,
                          material: Bytes)
    requires q in c.profiles && SameFor(c, s, s', q)
    ensures Receive(c, s', q, frame, transport, material).1 == Receive(c, s, q, frame, transport, material).1
  {
    forall authentic, v, mac {
      VerifyDetermined(c, s, s', q, authentic, v, mac, transport, material);
    }
    assert Judge(c, s', q, frame, transport, material).1 == Judge(c, s, q, frame, transport, material).1;
  }

  /**
   The operation works on another PDU, is not the reset that clears every
   count or a failure injection, and installs no key under q's key id. An
   on-demand key creation may reach q's id only if q's key exists already.
   */
  ghost predicate ElsewhereThan(c: Config, s: State, op: Op, q: string)
    requires q in c.profiles
  {
    match op
    case ReceiveOp(p, _, _, _) => p != q && KeyUntouched(c, s, p, q)
    case TransmitOp(p, _, _, _, _) => p != q && KeyUntouched(c, s, p, q)
    case ResyncOp(p, _) => p != q
    case RotateOp(p, keyId, _) => p != q && KeyOf(c, s.store, q) != Some(keyId)
    case ProvisionOp(p, keyId, _) => p != q && KeyOf(c, s.store, q) != Some(keyId)
    case ResetOp => true
    case ResetEcuOp => false
    case FailModeOp(_) => false
  }

  ghost predicate KeyUntouched(c: Config, s: State, p: string, q: string)
    requires q in c.profiles
  {
    match KeyOf(c, s.store, q)
    case None => true
    case Some(id) => id in s.keys || p !in c.profiles || KeyOf(c, s.store, p) != Some(id)
  }

  /** A MAC computation leaves the key store alone or creates the one key it was asked for. */
  ghost predicate AtMostCreates(keys: KeyStore, keys': KeyStore, id: Option<string>, material: Bytes) {
    keys' == keys || (id.Some? && id.value !in keys && keys' == keys[id.value := Symmetric(material)])
  }

  lemma VerifyKeys(c: Config, s: State, p: string, authentic: Bytes, v: int, mac: Bytes, transport: Transport,
                   material: Bytes)
    requires p in c.profiles
    ensures AtMostCreates(s.keys, VerifyMac(c, s, p, authentic, v, mac, transport, material).0,
                          KeyOf(c, s.store, p), material)
  {}

  lemma GenerateKeys(c: Config, s: State, p: string, authentic: Bytes, v: int, transport: Transport,
                     material: Bytes, slow: bool)
    requires p in c.profiles
    ensures AtMostCreates(s.keys, GenerateMac(c, s, p, authentic, v, transport, material, slow).0.keys,
                          KeyOf(c, s.store, p), material)
  {}

  lemma JudgeKeys(c: Config, s: State, p: string, frame: Bytes, transport: Transport, material: Bytes)
    requires p in c.profiles
    ensures AtMostCreates(s.keys, Judge(c, s, p, frame, transport, material).0, KeyOf(c, s.store, p), material)
  {
    forall authentic, v, mac {
      VerifyKeys(c, s, p, authentic, v, mac, transport, material);
    }
  }

  /** Receiving or transmitting for p touches no key but the one p uses, and that only if it did not exist. */
  lemma ReceiveKeys(c: Config, s: State, p: string, frame: Bytes, transport: Transport, material: Bytes, id: string)
    requires id in s.keys || p !in c.profiles || KeyOf(c, s.store, p) != Some(id)
    ensures SameKey(s, Receive(c, s, p, frame, transport, material).0, id)
  {
    if p in c.profiles {
      JudgeKeys(c, s, p, frame, transport, material);
    }
    assert Receive(c, s, p, frame, transport, material).0.keys == Judge(c, s, p, frame, transport, material).0;
  }

  lemma TransmitKeys(c: Config, s: State, p: string, authentic: Bytes, transport: Transport, material: Bytes,
                     slow: bool, id: string)
    requires id in s.keys || p !in c.profiles || KeyOf(c, s.store, p) != Some(id)
    ensures SameKey(s, Transmit(c, s, p, authentic, transport, material, slow).0, id)
  {
    if p in c.profiles {
      GenerateKeys(c, s, p, Padded(authentic, transport), LastValid(s.store, p) + 1, transport, material, slow);
    }
  }

  lemma CommitKeepsKeyOf(c: Config, store: Store, p: string, v: int, q: string)
    requires q in c.profiles
    ensures KeyOf(c, Commit(store, p, v), q) == KeyOf(c, store, q)
  {
    CommitIsLocal(store, p, v, q);
  }

  lemma RecordKeepsKeyOf(c: Config, store: Store, m: KeyMetadata, q: string)
    requires q in c.profiles && q != m.pduId
    ensures KeyOf(c, SaveMetadata(store, m), q) == KeyOf(c, store, q)
  {
    NamesDisjoint(m.pduId, q);
  }

  lemma TransmitIsolation(c: Config, s: State, p: string, authentic: Bytes, transport: Transport, material: Bytes,
                          slow: bool, q: string)
    requires q in c.profiles && KeyUntouched(c, s, p, q)
    ensures SameFor(c, s, Transmit(c, s, p, authentic, transport, material, slow).0, q)
  {
    TransmitKeepsStore(c, s, p, authentic, transport, material, slow);
    if KeyOf(c, s.store, q).Some? {
      TransmitKeys(c, s, p, authentic, transport, material, slow, KeyOf(c, s.store, q).value);
    }
  }

  /** Saving a record for p and installing a key under another id than q's leaves q's setting alone. */
  lemma RekeyIsolation(c: Config, s: State, m: KeyMetadata, material: Bytes, q: string)
    requires q in c.profiles && m.pduId != q && KeyOf(c, s.store, q) != Some(m.keyId)
    ensures SameFor(c, s, s.(store := SaveMetadata(s.store, m), keys := s.keys[m.keyId := Symmetric(material)]), q)
  {
    RecordKeepsFreshness(s.store, m, q);
    RecordKeepsKeyOf(c, s.store, m, q);
  }

  /** An operation elsewhere leaves q's freshness, fault count, key and so every verdict on q's frames unchanged. */
  lemma StepIsolation(c: Config, s: State, op: Op, q: string)
    requires q in c.profiles && ElsewhereThan(c, s, op, q)
    ensures SameFor(c, s, Step(c, s, op), q)
  {
    match op
    case ReceiveOp(p, frame, transport, material) =>
      ReceiveIsolation(c, s, p, frame, transport, material, q);
    case TransmitOp(p, authentic, transport, material, slow) =>
      TransmitIsolation(c, s, p, authentic, transport, material, slow, q);
    case ResyncOp(p, v) =>
      CommitIsLocal(s.store, p, v, q);
      CommitKeepsKeyOf(c, s.store, p, v, q);
    case RotateOp(p, keyId, material) =>
      if GetMetadata(s.store, p).Some? {
        RekeyIsolation(c, s, KeyMetadata(p, keyId, GetMetadata(s.store, p).value.version + 1, Active), material, q);
      }
    case ProvisionOp(p, keyId, material) =>
      RekeyIsolation(c, s, KeyMetadata(p, keyId, 1, Active), material, q);
    case ResetOp =>
  }

  lemma ReceiveIsolation(c: Config, s: State, p: string, frame: Bytes, transport: Transport, material: Bytes, q: string)
    requires p != q && q in c.profiles && KeyUntouched(c, s, p, q)
    ensures SameFor(c, s, Receive(c, s, p, frame, transport, material).0, q)
  {
    if KeyOf(c, s.store, q).Some? {
      ReceiveKeys(c, s, p, frame, transport, material, KeyOf(c, s.store, q).value);
    }
    OtherwiseKept(c, s, p, frame, transport, material);
    var (s', r) := Receive(c, s, p, frame, transport, material);
    if r.Accepted? {
      AcceptedCommits(c, s, p, frame, transport, material);
      CommitIsLocal(s.store, p, FullValue(c, s, p, frame, transport).value, q);
      CommitKeepsKeyOf(c, s.store, p, FullValue(c, s, p, frame, transport).value, q);
    }
  }

  /** The verdict form of isolation for one operation. */
  lemma VerdictUnchangedElsewhere(c: Config, s: State, op: Op, q: string,
                                  frame: Bytes, transport: Transport, material: Bytes)
    requires q in c.profiles && ElsewhereThan(c, s, op, q)
    ensures FailureCount(Step(c, s, op).guard, q) == FailureCount(s.guard, q)
    ensures LastValid(Step(c, s, op).store, q) == LastValid(s.store, q)
    ensures Receive(c, Step(c, s, op), q, frame, transport, material).1
         == Receive(c, s, q, frame, transport, material).1
  {
    StepIsolation(c, s, op, q);
    VerdictDetermined(c, s, Step(c, s, op), q, frame, transport, material);
  }

  /** No operation of the run works on q, clears every count, injects a failure, or installs a key under the id. */
  ghost predicate RunElsewhere(ops: seq<Op>, q: string, id: Option<string>) {
    forall i :: 0 <= i < |ops| ==> OpElsewhere(ops[i], q, id)
  }

  ghost predicate OpElsewhere(op: Op, q: string, id: Option<string>) {
    match op
    case ReceiveOp(p, _, _, _) => p != q
    case TransmitOp(p, _, _, _, _) => p != q
    case ResyncOp(p, _) => p != q
    case RotateOp(p, keyId, _) => p != q && Some(keyId) != id
    case ProvisionOp(p, keyId, _) => p != q && Some(keyId) != id
    case ResetOp => true
    case ResetEcuOp => false
    case FailModeOp(_) => false
  }

  /** q has no key record, or its key exists already, or no other PDU uses q's key id. */
  ghost predicate KeyPrivate(c: Config, s: State, q: string)
    requires q in c.profiles
  {
    match KeyOf(c, s.store, q)
    case None => true
    case Some(id) => id in s.keys || forall p :: p in c.profiles && p != q ==> KeyOf(c, s.store, p) != Some(id)
  }

  lemma PrivateElsewhere(c: Config, s: State, op: Op, q: string)
    requires q in c.profiles && KeyPrivate(c, s, q) && OpElsewhere(op, q, KeyOf(c, s.store, q))
    ensures ElsewhereThan(c, s, op, q)
  {}

  /** An operation elsewhere gives q's key id to no other PDU. */
  lemma KeyOfElsewhere(c: Config, s: State, op: Op, q: string, p: string)
    requires q in c.profiles && p in c.profiles && OpElsewhere(op, q, KeyOf(c, s.store, q))
    ensures KeyOf(c, Step(c, s, op).store, p) == KeyOf(c, s.store, p)
            || (KeyOf(c, Step(c, s, op).store, p) != KeyOf(c, s.store, q) && (op.RotateOp? || op.ProvisionOp?))
  {
    match op
    case ReceiveOp(r, frame, transport, material) =>
      OtherwiseKept(c, s, r, frame, transport, material);
      if Receive(c, s, r, frame, transport, material).1.Accepted? {
        AcceptedCommits(c, s, r, frame, transport, material);
        CommitKeepsKeyOf(c, s.store, r, FullValue(c, s, r, frame, transport).value, p);
      }
    case TransmitOp(r, authentic, transport, material, slow) =>
      TransmitKeepsStore(c, s, r, authentic, transport, material, slow);
    case ResyncOp(r, v) =>
      CommitKeepsKeyOf(c, s.store, r, v, p);
    case RotateOp(r, keyId, material) =>
      if GetMetadata(s.store, r).Some? {
        RecordGivesKey(c, s.store, KeyMetadata(r, keyId, GetMetadata(s.store, r).value.version + 1, Active), p);
      }
    case ProvisionOp(r, keyId, material) =>
      RecordGivesKey(c, s.store, KeyMetadata(r, keyId, 1, Active), p);
    case _ =>
  }

  lemma RecordGivesKey(c: Config, store: Store, m: KeyMetadata, p: string)
    requires p in c.profiles
    ensures KeyOf(c, SaveMetadata(store, m), p) == KeyOf(c, store, p)
            || KeyOf(c, SaveMetadata(store, m), p) == Some(m.keyId)
  {
    if p == m.pduId {
      RecordRoundTrip(m);
    } else {
      RecordKeepsKeyOf(c, store, m, p);
    }
  }

  lemma PrivateKept(c: Config, s: State, op: Op, q: string)
    requires q in c.profiles && KeyPrivate(c, s, q) && OpElsewhere(op, q, KeyOf(c, s.store, q))
    requires SameFor(c, s, Step(c, s, op), q)
    ensures KeyPrivate(c, Step(c, s, op), q)
  {
    var s' := Step(c, s, op);
    forall p | p in c.profiles && p != q && KeyOf(c, s.store, q).Some?
      ensures KeyOf(c, s.store, p) != KeyOf(c, s.store, q) ==> KeyOf(c, s'.store, p) != KeyOf(c, s.store, q)
    {
      KeyOfElsewhere(c, s, op, q, p);
    }
  }

  /** Whatever a run does to other PDUs, q is judged and counted as if the run had not happened. */
  lemma {:induction false} RunIsolation(c: Config, s: State, ops: seq<Op>, q: string)
    requires q in c.profiles && KeyPrivate(c, s, q) && RunElsewhere(ops, q, KeyOf(c, s.store, q))
    ensures SameFor(c, s, Run(c, s, ops), q) && KeyPrivate(c, Run(c, s, ops), q)
  {
    if ops != [] {
      var n := |ops| - 1;
      RunIsolation(c, s, ops[..n], q);
      var mid := Run(c, s, ops[..n]);
      PrivateElsewhere(c, mid, ops[n], q);
      StepIsolation(c, mid, ops[n], q);
      PrivateKept(c, mid, ops[n], q);
    }
  }

  /** So every frame for q gets the verdict, and q keeps the freshness and fault count, it had before the run. */
  lemma IsolationOverRuns(c: Config, s: State, ops: seq<Op>, q: string,
                          frame: Bytes, transport: Transport, material: Bytes)
    requires q in c.profiles && KeyPrivate(c, s, q) && RunElsewhere(ops, q, KeyOf(c, s.store, q))
    ensures var s' := Run(c, s, ops);
            && Receive(c, s', q, frame, transport, material).1 == Receive(c, s, q, frame, transport, material).1
            && LastValid(s'.store, q) == LastValid(s.store, q)
            && FailureCount(s'.guard, q) == FailureCount(s.guard, q)
  {
    RunIsolation(c, s, ops, q);
    VerdictDetermined(c, s, Run(c, s, ops), q, frame, transport, material);
  }

  /** A reception keeps the PDU's key in place. */
  lemma ReceiveKeepsOperational(c: Config, s: State, p: string, frame: Bytes, transport: Transport, material: Bytes,
                                f: nat, m: nat, k: Bytes)
    requires Operational(c, s, p, transport, material, f, m, k)
    ensures Operational(c, Receive(c, s, p, frame, transport, material).0, p, transport, material, f, m, k)
  {
    JudgeKeys(c, s, p, frame, transport, material);
    OtherwiseKept(c, s, p, frame, transport, material);
    var (s', r) := Receive(c, s, p, frame, transport, material);
    assert s'.keys == Judge(c, s, p, frame, transport, material).0;
    if r.Accepted? {
      AcceptedCommits(c, s, p, frame, transport, material);
      CommitKeepsKeyOf(c, s.store, p, FullValue(c, s, p, frame, transport).value, p);
    }
  }
}
