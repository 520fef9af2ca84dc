/** The HSM's symmetric keys and the persisted records that say which key a PDU uses. */
module Keys {
  import opened Bytes
  import opened Wrappers
  import opened NvmCodec
  import opened Nvm

  datatype Key = Symmetric(material: Bytes) | EcPrivate

  type KeyStore = map<string, Key>

  type Digest = d: Bytes | |d| == 32
    witness [0, 0, 0, 0, 0, 0, 0, 0, 0, 0, 0, 0, 0, 0, 0, 0, 0, 0, 0, 0, 0, 0, 0, 0, 0, 0, 0, 0, 0, 0, 0, 0]

  /** HMAC-SHA256 of (key material, data), left uninterpreted. */
  type HmacFn = (Bytes, Bytes) -> Digest

  datatype CryptoError = Unavailable | WrongKeyType

  /** hmac_sha256: a key that is not provisioned is created from fresh material on first use. */
  function Hmac(h: HmacFn, keys: KeyStore, failMode: bool, keyId: string, data: Bytes, material: Bytes):
    (KeyStore, Result<Digest, CryptoError>)
  {
    if failMode then (keys, Err(Unavailable))
    else
      var keys' := if keyId in keys then keys else keys[keyId := Symmetric(material)];
      match keys'[keyId]
      case EcPrivate => (keys', Err(WrongKeyType))
      case Symmetric(k) => (keys', Ok(h(k, data)))
  }

  class Hsm {
    const hmac: HmacFn
    var keys: KeyStore
    var failMode: bool

    constructor (hmac: HmacFn)
      ensures this.hmac == hmac && keys == map[] && !failMode
    {
      this.hmac := hmac;
      keys := map[];
      failMode := false;
    }

    method HmacSha256(keyId: string, data: Bytes, material: Bytes) returns (r: Result<Digest, CryptoError>)
      modifies this`keys
      ensures (keys, r) == Hmac(hmac, old(keys), failMode, keyId, data, material)
    {
      if failMode {
        return Err(Unavailable);
      }
      if keyId !in keys {
        keys := keys[keyId := Symmetric(material)];
      }
      match keys[keyId]
      case EcPrivate => r := Err(WrongKeyType);
      case Symmetric(k) => r := Ok(hmac(k, data));
    }

    method GenerateSymmetricKey(keyId: string, material: Bytes) returns (ok: bool)
      modifies this`keys
      ensures ok <==> !failMode
      ensures keys == if failMode then old(keys) else old(keys)[keyId := Symmetric(material)]
    {
      ok := !failMode;
      if ok {
        keys := keys[keyId := Symmetric(material)];
      }
    }
  }

  // ---------- key records ----------

  datatype Lifecycle = Active | Retired

  datatype KeyMetadata = KeyMetadata(pduId: string, keyId: string, version: int, lifecycle: Lifecycle)

  function ToRecord(m: KeyMetadata): Value {
    Dict(map["pdu_id" := Str(m.pduId), "key_id" := Str(m.keyId), "version" := Int(m.version),
             "lifecycle_state" := Str(if m.lifecycle.Active? then "ACTIVE" else "RETIRED")])
  }

  /** None for a record that is absent or that the source cannot rebuild. */
  function FromRecord(v: Value): Option<KeyMetadata> {
    if !v.Dict? || "pdu_id" !in v.fields || "key_id" !in v.fields || "version" !in v.fields
       || "lifecycle_state" !in v.fields then None
    else
      match (v.fields["pdu_id"], v.fields["key_id"], v.fields["version"], v.fields["lifecycle_state"])
      case (Str(p), Str(k), Int(n), Str(l)) =>
        if l == "ACTIVE" then Some(KeyMetadata(p, k, n, Active))
        else if l == "RETIRED" then Some(KeyMetadata(p, k, n, Retired))
        else None
      case _ => None
  }

  /** The stored value spells this metadata, whatever other fields it has. */
  predicate IsRecord(v: Value, m: KeyMetadata) {
    && v.Dict?
    && "pdu_id" in v.fields && v.fields["pdu_id"] == Str(m.pduId)
    && "key_id" in v.fields && v.fields["key_id"] == Str(m.keyId)
    && "version" in v.fields && v.fields["version"] == Int(m.version)
    && "lifecycle_state" in v.fields
    && v.fields["lifecycle_state"] == Str(match m.lifecycle case Active => "ACTIVE" case Retired => "RETIRED")
  }

  /** A stored value rebuilds to some metadata exactly if it spells it; another lifecycle or a missing field fails. */
  lemma FromRecordIff(v: Value, m: KeyMetadata)
    ensures FromRecord(v) == Some(m) <==> IsRecord(v, m)
  {
    assert "ACTIVE"[0] == 'A' && "RETIRED"[0] == 'R';
  }

  function GetMetadata(store: Store, pduId: string): Option<KeyMetadata> {
    if KeyMetaName(pduId) in store then FromRecord(store[KeyMetaName(pduId)]) else None
  }

  function SaveMetadata(store: Store, m: KeyMetadata): Store {
    store[KeyMetaName(m.pduId) := ToRecord(m)]
  }

  /** The key the PDU uses, or None where resolve_key raises. */
  function ResolveKey(store: Store, pduId: string): Option<string> {
    match GetMetadata(store, pduId)
    case Some(m) => Some(m.keyId)
    case None => None
  }

  /** A record read back is the record saved. */
  lemma RecordRoundTrip(m: KeyMetadata)
    ensures FromRecord(ToRecord(m)) == Some(m)
  {
    assert "pdu_id"[0] == 'p' && "key_id"[0] == 'k' && "version"[0] == 'v' && "lifecycle_state"[0] == 'l';
    assert "ACTIVE"[0] == 'A' && "RETIRED"[0] == 'R';
    var f := ToRecord(m).fields;
    assert f["pdu_id"] == Str(m.pduId);
    assert f["key_id"] == Str(m.keyId);
    assert f["version"] == Int(m.version);
  }

  lemma RecordUntagged(m: KeyMetadata)
    ensures Untagged(ToRecord(m))
  {
    assert "pdu_id"[0] == 'p' && MARKER[0] == '_';
    assert "pdu_id" in ToRecord(m).fields;
  }

  /** A saved record is read back as it was, also after a flush and a reboot, and no other PDU's changes. */
  lemma MetadataRoundTrip(store: Store, m: KeyMetadata, q: string)
    ensures GetMetadata(SaveMetadata(store, m), m.pduId) == Some(m)
    ensures q != m.pduId ==> GetMetadata(SaveMetadata(store, m), q) == GetMetadata(store, q)
    ensures Decode(Encode(ToRecord(m))) == Got(ToRecord(m))
  {
    NamesDisjoint(m.pduId, q);
    RecordRoundTrip(m);
    RecordUntagged(m);
    RoundTrip(ToRecord(m));
  }

  datatype KeyError = NotProvisioned | HsmUnavailable

  /** rotate_key: a new key of the next version replaces the PDU's record. */
  function Rotate(store: Store, keys: KeyStore, failMode: bool, pduId: string, keyId: string, material: Bytes):
    (Store, KeyStore, Result<KeyMetadata, KeyError>)
  {
    match GetMetadata(store, pduId)
    case None => (store, keys, Err(NotProvisioned))
    case Some(current) =>
      if failMode then (store, keys, Err(HsmUnavailable))
      else
        var m := KeyMetadata(pduId, keyId, current.version + 1, Active);
        (SaveMetadata(store, m), keys[keyId := Symmetric(material)], Ok(m))
  }

  function Provision(store: Store, keys: KeyStore, failMode: bool, pduId: string, keyId: string, material: Bytes):
    (Store, KeyStore, Result<KeyMetadata, KeyError>)
  {
    if failMode then (store, keys, Err(HsmUnavailable))
    else
      var m := KeyMetadata(pduId, keyId, 1, Active);
      (SaveMetadata(store, m), keys[keyId := Symmetric(material)], Ok(m))
  }

  /**
   A successful rotation makes the PDU resolve to the new key with the given
   material, one version up, and leaves every other PDU's record and every
   other key alone; a failed one changes nothing. It fails exactly when the PDU
   has no record or the HSM is unavailable. What it returns is what it stored.
   */
  lemma RotationTakesEffect(store: Store, keys: KeyStore, failMode: bool, p: string, keyId: string, material: Bytes,
                            q: string, other: string)
    ensures var (store', keys', r) := Rotate(store, keys, failMode, p, keyId, material);
            && (r.Ok? <==> GetMetadata(store, p).Some? && !failMode)
            && (r.Err? ==> store' == store && keys' == keys
                           && r.error == if GetMetadata(store, p).None? then NotProvisioned else HsmUnavailable)
            && (r.Ok? ==>
                 && ResolveKey(store', p) == Some(keyId)
                 && r.value == KeyMetadata(p, keyId, GetMetadata(store, p).value.version + 1, Active)
                 && GetMetadata(store', p) == Some(r.value)
                 && HoldsMaterial(keys', keyId, material)
                 && (q != p ==> GetMetadata(store', q) == GetMetadata(store, q))
                 && (other != keyId ==> (other in keys' <==> other in keys)
                                        && (other in keys ==> keys'[other] == keys[other])))
  {
    if GetMetadata(store, p).Some? {
      MetadataRoundTrip(store, KeyMetadata(p, keyId, GetMetadata(store, p).value.version + 1, Active), q);
    }
  }

  /** Provisioning does the same from version 1, for any PDU, whether it had a record or not. */
  lemma ProvisionTakesEffect(store: Store, keys: KeyStore, failMode: bool, p: string, keyId: string, material: Bytes,
                             q: string, other: string)
    ensures var (store', keys', r) := Provision(store, keys, failMode, p, keyId, material);
            && (r.Ok? <==> !failMode)
            && (r.Err? ==> store' == store && keys' == keys && r.error == HsmUnavailable)
            && (r.Ok? ==>
                 && ResolveKey(store', p) == Some(keyId)
                 && r.value == KeyMetadata(p, keyId, 1, Active) && GetMetadata(store', p) == Some(r.value)
                 && HoldsMaterial(keys', keyId, material)
                 && (q != p ==> GetMetadata(store', q) == GetMetadata(store, q))
                 && (other != keyId ==> (other in keys' <==> other in keys)
                                        && (other in keys ==> keys'[other] == keys[other])))
  {
    MetadataRoundTrip(store, KeyMetadata(p, keyId, 1, Active), q);
  }

  predicate HoldsMaterial(keys: KeyStore, keyId: string, material: Bytes) {
    keyId in keys && keys[keyId] == Symmetric(material)
  }

  class KeyManager {
    const nvm: NvM
    const hsm: Hsm

    constructor (nvm: NvM, hsm: Hsm)
      ensures this.nvm == nvm && this.hsm == hsm
    {
      this.nvm := nvm;
      this.hsm := hsm;
    }

    function Resolve(pduId: string): Option<string>
      reads nvm
    {
      ResolveKey(nvm.store, pduId)
    }

    method ProvisionKey(pduId: string, keyId: string, material: Bytes) returns (r: Result<KeyMetadata, KeyError>)
      modifies nvm, hsm`keys
      ensures (nvm.store, hsm.keys, r)
           == Provision(old(nvm.store), old(hsm.keys), hsm.failMode, pduId, keyId, material)
      ensures r.Ok? ==> nvm.Durable()
    {
      var ok := hsm.GenerateSymmetricKey(keyId, material);
      if !ok {
        return Err(HsmUnavailable);
      }
      var m := KeyMetadata(pduId, keyId, 1, Active);
      nvm.Write(KeyMetaName(pduId), ToRecord(m));
      r := Ok(m);
    }

    method RotateKey(pduId: string, keyId: string, material: Bytes) returns (r: Result<KeyMetadata, KeyError>)
      modifies nvm, hsm`keys
      ensures (nvm.store, hsm.keys, r)
           == Rotate(old(nvm.store), old(hsm.keys), hsm.failMode, pduId, keyId, material)
      ensures r.Ok? ==> nvm.Durable()
    {
      var current := GetMetadata(nvm.store, pduId);
      if current.None? {
        return Err(NotProvisioned);
      }
      var ok := hsm.GenerateSymmetricKey(keyId, material);
      if !ok {
        return Err(HsmUnavailable);
      }
      var m := KeyMetadata(pduId, keyId, current.value.version + 1, Active);
      nvm.Write(KeyMetaName(pduId), ToRecord(m));
      r := Ok(m);
    }
  }
}
