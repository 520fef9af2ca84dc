/** What the algorithm named in a profile changes: nothing, so when the frames still are what it asks for. */
module AlgorithmAgility {
  import opened Bytes
  import opened Wrappers
  import opened SecurityProfile
  import opened PduManager
  import opened Freshness
  import opened Policy
  import opened SecOCModel
  import opened SecOCProtocol

  /** HMAC-SHA512 of (key material, data), left uninterpreted like the other. */
  type WideDigest = d: Bytes | |d| == 64 witness seq(64, _ => 0)

  type WideHmacFn = (Bytes, Bytes) -> WideDigest

  /** The configurations are equal but for the algorithms their profiles name. */
  ghost predicate SameButAlgorithm(c: Config, c': Config) {
    && c' == c.(profiles := c'.profiles)
    && c'.profiles.Keys == c.profiles.Keys
    && forall p :: p in c.profiles ==> c'.profiles[p] == c.profiles[p].(algorithm := c'.profiles[p].algorithm)
  }

  lemma GenerateIgnoresAlgorithm(c: Config, c': Config, s: State, p: string, authentic: Bytes, v: int,
                                 transport: Transport, material: Bytes, slow: bool)
    requires SameButAlgorithm(c, c') && p in c.profiles
    ensures GenerateMac(c', s, p, authentic, v, transport, material, slow)
         == GenerateMac(c, s, p, authentic, v, transport, material, slow)
  {}

  lemma VerifyIgnoresAlgorithm(c: Config, c': Config, s: State, p: string, authentic: Bytes, v: int, mac: Bytes,
                               transport: Transport, material: Bytes)
    requires SameButAlgorithm(c, c') && p in c.profiles
    ensures VerifyMac(c', s, p, authentic, v, mac, transport, material)
         == VerifyMac(c, s, p, authentic, v, mac, transport, material)
  {}

  lemma TransmitIgnoresAlgorithm(c: Config, c': Config, s: State, p: string, authentic: Bytes, transport: Transport,
                                 material: Bytes, slow: bool)
    requires SameButAlgorithm(c, c')
    ensures Transmit(c', s, p, authentic, transport, material, slow)
         == Transmit(c, s, p, authentic, transport, material, slow)
  {
    if p in c.profiles {
      GenerateIgnoresAlgorithm(c, c', s, p, Padded(authentic, transport), LastValid(s.store, p) + 1, transport,
                               material, slow);
    }
  }

  lemma JudgeIgnoresAlgorithm(c: Config, c': Config, s: State, p: string, frame: Bytes, transport: Transport,
                              material: Bytes)
    requires SameButAlgorithm(c, c')
    ensures Judge(c', s, p, frame, transport, material) == Judge(c, s, p, frame, transport, material)
  {
    if p in c.profiles {
      forall authentic, v, mac {
        VerifyIgnoresAlgorithm(c, c', s, p, authentic, v, mac, transport, material);
      }
    }
  }

  lemma ReceiveIgnoresAlgorithm(c: Config, c': Config, s: State, p: string, frame: Bytes, transport: Transport,
                                material: Bytes)
    requires SameButAlgorithm(c, c')
    ensures Receive(c', s, p, frame, transport, material) == Receive(c, s, p, frame, transport, material)
  {
    JudgeIgnoresAlgorithm(c, c', s, p, frame, transport, material);
  }

  lemma StepIgnoresAlgorithm(c: Config, c': Config, s: State, op: Op)
    requires SameButAlgorithm(c, c')
    ensures Step(c', s, op) == Step(c, s, op)
  {
    match op
    case ReceiveOp(p, frame, transport, material) =>
      ReceiveIgnoresAlgorithm(c, c', s, p, frame, transport, material);
    case TransmitOp(p, authentic, transport, material, slow) =>
      TransmitIgnoresAlgorithm(c, c', s, p, authentic, transport, material, slow);
    case _ =>
  }

  /** Renaming algorithms changes no run of the stack. */
  lemma {:induction false} RunIgnoresAlgorithm(c: Config, c': Config, s: State, ops: seq<Op>)
    requires SameButAlgorithm(c, c')
    ensures Run(c', s, ops) == Run(c, s, ops)
  {
    if ops != [] {
      var n := |ops| - 1;
      RunIgnoresAlgorithm(c, c', s, ops[..n]);
      StepIgnoresAlgorithm(c, c', Run(c, s, ops[..n]), ops[n]);
    }
  }

  // ---------- frames as the named algorithm asks for them ----------

  /** The m leftmost bytes of the MAC under the named algorithm. */
  function NamedMac(c: Config, sha512: WideHmacFn, algorithm: string, k: Bytes, data: Bytes, m: nat): Bytes {
    Prefix(if algorithm == "HMAC-SHA512" then sha512(k, data) else c.hmac(k, data), m)
  }

  function NamedFrame(c: Config, sha512: WideHmacFn, algorithm: string, v: int, a: Bytes, f: nat, m: nat, k: Bytes):
    Bytes
  {
    Build(a, v, NamedMac(c, sha512, algorithm, k, MacInput(a, v, f), m), f)
  }

  /** The named algorithm is not HMAC-SHA512, or its truncated MAC happens to be that of HMAC-SHA256. */
  predicate MacsAgree(c: Config, sha512: WideHmacFn, algorithm: string, v: int, a: Bytes, f: nat, m: nat, k: Bytes) {
    algorithm == "HMAC-SHA512" ==>
      Prefix(sha512(k, MacInput(a, v, f)), m) == Prefix(c.hmac(k, MacInput(a, v, f)), m)
  }

  lemma BuildInjective(a: Bytes, v: int, mac: Bytes, mac': Bytes, f: nat)
    ensures Build(a, v, mac, f) == Build(a, v, mac', f) <==> mac == mac'
  {
    var head := a + ToBytes(Truncated(v, f), f);
    assert Build(a, v, mac, f)[|head|..] == mac;
    assert Build(a, v, mac', f)[|head|..] == mac';
  }

  /** The frame sent is the one that the profile's algorithm asks for exactly when the MACs agree. */
  lemma SentAsNamedIff(c: Config, sha512: WideHmacFn, s: State, p: string, authentic: Bytes, transport: Transport,
                       material: Bytes, slow: bool, f: nat, m: nat, k: Bytes)
    requires Operational(c, s, p, transport, material, f, m, k)
    requires transport.ClassicCan? ==> |authentic| <= CLASSIC_CAN_PAYLOAD
    ensures var r := Transmit(c, s, p, authentic, transport, material, slow).1;
            var v, a, algorithm := LastValid(s.store, p) + 1, Padded(authentic, transport), c.profiles[p].algorithm;
            r.Sent? && (r.frame == NamedFrame(c, sha512, algorithm, v, a, f, m, k)
                        <==> MacsAgree(c, sha512, algorithm, v, a, f, m, k))
  {
    TransmitBuilds(c, s, p, authentic, transport, material, slow, material, f, m, k);
    var v, a := LastValid(s.store, p) + 1, Padded(authentic, transport);
    var data := MacInput(a, v, f);
    BuildInjective(a, v, NamedMac(c, sha512, c.profiles[p].algorithm, k, data, m), Prefix(c.hmac(k, data), m), f);
  }

  /** A profile renamed to HMAC-SHA512 still sends the frame it sent before, the wrong one unless the MACs coincide. */
  lemma IgnoredAlgorithmFrame(c: Config, c': Config, sha512: WideHmacFn, s: State, p: string, a: Bytes,
                              transport: Transport, material: Bytes, f: nat, m: nat, k: Bytes)
    requires SameButAlgorithm(c, c') && Operational(c, s, p, transport, material, f, m, k)
    requires c'.profiles[p].algorithm == "HMAC-SHA512" && Padded(a, transport) == a
    requires transport.ClassicCan? ==> |a| <= CLASSIC_CAN_PAYLOAD
    ensures var v := LastValid(s.store, p) + 1;
            && Transmit(c', s, p, a, transport, material, false).1 == Sent(FrameFor(c, v, a, f, m, k))
            && (FrameFor(c, v, a, f, m, k) == NamedFrame(c', sha512, "HMAC-SHA512", v, a, f, m, k)
                <==> Prefix(sha512(k, MacInput(a, v, f)), m) == Prefix(c.hmac(k, MacInput(a, v, f)), m))
  {
    TransmitBuilds(c, s, p, a, transport, material, false, material, f, m, k);
    TransmitIgnoresAlgorithm(c, c', s, p, a, transport, material, false);
    var v := LastValid(s.store, p) + 1;
    var data := MacInput(a, v, f);
    BuildInjective(a, v, Prefix(c.hmac(k, data), m), Prefix(sha512(k, data), m), f);
  }

  /** A fresh frame is accepted exactly if its trailing bytes are the truncated HMAC-SHA256. */
  lemma BuiltFrameDecided(c: Config, s: State, p: string, v: int, a: Bytes, mac: Bytes, transport: Transport,
                          material: Bytes, f: nat, m: nat, k: Bytes)
    requires Operational(c, s, p, transport, material, f, m, k) && 0 < f + m && |mac| == m
    requires transport.ClassicCan? ==> |a| == CLASSIC_CAN_PAYLOAD
    requires Validate(LastValid(s.store, p), c.window, Modulus(c), Truncated(v, f)) == Some(v)
    ensures Receive(c, s, p, Build(a, v, mac, f), transport, material).1
         == if mac == Prefix(c.hmac(k, MacInput(a, v, f)), m) then Accepted(a) else Rejected(MacMismatch)
  {
    var frame := Build(a, v, mac, f);
    BuiltFrame(a, v, mac, f, m);
    assert WellFormed(frame, f, m, transport) && WireFreshness(frame, f, m) == Truncated(v, f);
    ReceiveDecides(c, s, p, frame, transport, material, f, m, k);
  }

  /** And a fresh frame built by the named algorithm is accepted exactly then; otherwise its MAC mismatches. */
  lemma NamedFrameAcceptedIff(c: Config, sha512: WideHmacFn, s: State, p: string, v: int, a: Bytes,
                              transport: Transport, material: Bytes, f: nat, m: nat, k: Bytes)
    requires Operational(c, s, p, transport, material, f, m, k) && 0 < f + m && m <= 32
    requires transport.ClassicCan? ==> |a| == CLASSIC_CAN_PAYLOAD
    requires Validate(LastValid(s.store, p), c.window, Modulus(c), Truncated(v, f)) == Some(v)
    ensures var algorithm := c.profiles[p].algorithm;
            Receive(c, s, p, NamedFrame(c, sha512, algorithm, v, a, f, m, k), transport, material).1
            == if MacsAgree(c, sha512, algorithm, v, a, f, m, k) then Accepted(a) else Rejected(MacMismatch)
  {
    var mac := NamedMac(c, sha512, c.profiles[p].algorithm, k, MacInput(a, v, f), m);
    BuiltFrameDecided(c, s, p, v, a, mac, transport, material, f, m, k);
  }
}
