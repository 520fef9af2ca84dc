/** The deployed configuration, freshly provisioned, and runs of it that show what the general theorems allow. */
module Deployment {
  import opened Bytes
  import opened Wrappers
  import opened SecurityProfile
  import opened PduManager
  import opened Freshness
  import opened Nvm
  import opened Keys
  import opened Policy
  import opened CanBus
  import opened SecOCModel
  import opened SecOCProtocol
  import opened Isolation
  import opened HonestTraffic
  import opened StackLockout
  import opened ReplayRuns
  import opened NarrowField
  import opened AlgorithmAgility
  import opened EcuModel

  const PDU := "PDU_BRAKE_TORQUE"
  const KEY_ID := "secoc_mac_key_PDU_BRAKE_TORQUE"
  const PROFILE := Profile("HMAC-SHA256", KEY_ID, 2, 8, "v1", Some(1), Some(3))

  /** One PDU of the configuration file, the application's window and modulus, keys by record. */
  function Deployed(hmac: HmacFn): Config {
    Config(map[PDU := PROFILE], 16, 2, true, hmac)
  }

  /** An empty store and HSM after the PDU's key has been provisioned. */
  function Provisioned(hmac: HmacFn, key: Bytes): State {
    Step(Deployed(hmac), State(map[], map[], false, 0, FRESH_GUARD, EMPTY_BUS), ProvisionOp(PDU, KEY_ID, key))
  }

  lemma ProvisionedIsReady(hmac: HmacFn, key: Bytes, transport: Transport, material: Bytes)
    ensures var s := Provisioned(hmac, key);
            && (if transport.CanFd? then Operational(Deployed(hmac), s, PDU, transport, material, 2, 8, key)
                else Operational(Deployed(hmac), s, PDU, transport, material, 1, 3, key))
            && LastValid(s.store, PDU) == 0 && s.guard == FRESH_GUARD
  {
    NamesDisjoint(PDU, PDU);
    RecordRoundTrip(KeyMetadata(PDU, KEY_ID, 1, Active));
  }

  /** The frame for value v with an empty payload on CAN FD. */
  function Frame(hmac: HmacFn, v: int, key: Bytes): Bytes {
    FrameFor(Deployed(hmac), v, [], 2, 8, key)
  }

  // ---------- an accepted frame does not reset the failure count ----------

  /** The deployed stack can receive, has counted n failures of the PDU, and has accepted up to value l. */
  ghost predicate Counted(c: Config, s: State, key: Bytes, n: nat, l: int) {
    && Operational(c, s, PDU, CanFd, [], 2, 8, key)
    && FailureCount(s.guard, PDU) == n && !s.guard.locked
    && LastValid(s.store, PDU) == l
  }

  const BAD_OP := ReceiveOp(PDU, [], CanFd, [])

  /** A truncated frame is rejected, and counted. */
  lemma BadStep(c: Config, s: State, key: Bytes, n: nat, l: int)
    requires Counted(c, s, key, n, l)
    ensures RejectsFor(c, s, BAD_OP, PDU)
    ensures FailureCount(Step(c, s, BAD_OP).guard, PDU) == n + 1
    ensures if n < 4 then Counted(c, Step(c, s, BAD_OP), key, n + 1, l) else Step(c, s, BAD_OP).guard.locked
  {
    OtherwiseKept(c, s, PDU, [], CanFd, []);
    ReceiveKeepsOperational(c, s, PDU, [], CanFd, [], 2, 8, key);
    assert Receive(c, s, PDU, [], CanFd, []).1 == Rejected(MalformedStructure);
    RejectionLocks(s.guard, PDU, MalformedStructure);
  }

  lemma GoodStep(hmac: HmacFn, s: State, key: Bytes, n: nat)
    requires Counted(Deployed(hmac), s, key, n, 0)
    ensures var c, op := Deployed(hmac), ReceiveOp(PDU, Frame(hmac, 1, key), CanFd, []);
            AcceptsFor(c, s, op, PDU) && Counted(c, Step(c, s, op), key, n, 1)
  {
    var c, frame := Deployed(hmac), Frame(hmac, 1, key);
    CapacityOfTwo();
    FrameCarries(c, PDU, 1, [], CanFd, 2, 8, key);
    TruncationInverted(0, 16, Capacity(2), 1);
    FrameOutcome(c, s, PDU, frame, 1, [], CanFd, [], 2, 8, key);
    ReceiveKeepsOperational(c, s, PDU, frame, CanFd, [], 2, 8, key);
  }

  /** A run ends with n counted and `consecutive` consecutive failures, having accepted `accepted` frames up to l. */
  ghost predicate After(c: Config, s: State, ops: seq<Op>, key: Bytes, n: nat, l: int, accepted: nat,
                        consecutive: nat)
  {
    && Counted(c, Run(c, s, ops), key, n, l)
    && Acceptances(c, s, ops, PDU) == accepted
    && ConsecutiveRejections(c, s, ops, PDU) == consecutive
  }

  /** One more truncated frame at the end of a run. */
  lemma RejectOn(c: Config, s: State, ops: seq<Op>, key: Bytes, n: nat, l: int, accepted: nat, consecutive: nat)
    requires After(c, s, ops, key, n, l, accepted, consecutive)
    ensures if n < 4 then After(c, s, ops + [BAD_OP], key, n + 1, l, accepted, consecutive + 1)
            else Run(c, s, ops + [BAD_OP]).guard.locked && FailureCount(Run(c, s, ops + [BAD_OP]).guard, PDU) == n + 1
                 && ConsecutiveRejections(c, s, ops + [BAD_OP], PDU) == consecutive + 1
  {
    BadStep(c, Run(c, s, ops), key, n, l);
    assert (ops + [BAD_OP])[..|ops + [BAD_OP]| - 1] == ops;
  }

  /** n truncated frames. */
  function Bad(n: nat): seq<Op> {
    seq(n, _ => BAD_OP)
  }

  lemma {:induction false} BadFrames(c: Config, s: State, key: Bytes, n: nat)
    requires n <= 4 && Counted(c, s, key, 0, 0)
    ensures After(c, s, Bad(n), key, n, 0, 0, n)
  {
    if n > 0 {
      BadFrames(c, s, key, n - 1);
      RejectOn(c, s, Bad(n - 1), key, n - 1, 0, 0, n - 1);
      assert Bad(n - 1) + [BAD_OP] == Bad(n);
    }
  }

  lemma AcceptOn(hmac: HmacFn, s: State, ops: seq<Op>, key: Bytes, n: nat, consecutive: nat)
    requires After(Deployed(hmac), s, ops, key, n, 0, 0, consecutive)
    ensures After(Deployed(hmac), s, ops + [ReceiveOp(PDU, Frame(hmac, 1, key), CanFd, [])], key, n, 1, 1, 0)
  {
    var op := ReceiveOp(PDU, Frame(hmac, 1, key), CanFd, []);
    GoodStep(hmac, Run(Deployed(hmac), s, ops), key, n);
    assert (ops + [op])[..|ops + [op]| - 1] == ops;
  }

  /** Four rejections, one acceptance and one more rejection lock the ECU, with one consecutive failure. */
  lemma AcceptanceDoesNotForgive(hmac: HmacFn, key: Bytes)
    ensures var c, s := Deployed(hmac), Provisioned(hmac, key);
            var ops := Bad(4) + [ReceiveOp(PDU, Frame(hmac, 1, key), CanFd, [])];
            && Acceptances(c, s, ops, PDU) == 1 && !Run(c, s, ops).guard.locked
            && Run(c, s, ops + [BAD_OP]).guard.locked
            && ConsecutiveRejections(c, s, ops + [BAD_OP], PDU) == 1
  {
    var c, s := Deployed(hmac), Provisioned(hmac, key);
    ProvisionedIsReady(hmac, key, CanFd, []);
    BadFrames(c, s, key, 4);
    AcceptOn(hmac, s, Bad(4), key, 4, 4);
    RejectOn(c, s, Bad(4) + [ReceiveOp(PDU, Frame(hmac, 1, key), CanFd, [])], key, 4, 1, 1, 0);
  }

  // ---------- the reset that keeps the counts ----------

  /** Five rejections and SecOC.reset end in normal operation with the PDU still at the limit. */
  lemma BareResetUnlocksAtLimit(hmac: HmacFn, key: Bytes)
    ensures var g := Run(Deployed(hmac), Provisioned(hmac, key), Bad(5) + [Op.ResetOp]).guard;
            !g.locked && g.ecu == NormalOperation && FailureCount(g, PDU) == MAX_AUTH_FAILURES
    ensures Run(Deployed(hmac), Provisioned(hmac, key), Bad(5)).guard.locked
  {
    var c, s := Deployed(hmac), Provisioned(hmac, key);
    ProvisionedIsReady(hmac, key, CanFd, []);
    BadFrames(c, s, key, 4);
    RejectOn(c, s, Bad(4), key, 4, 0, 0, 4);
    assert Bad(4) + [BAD_OP] == Bad(5);
    ResetOn(c, s, Bad(5));
  }

  lemma ResetOn(c: Config, s: State, ops: seq<Op>)
    ensures Run(c, s, ops + [Op.ResetOp]).guard == Reset(Run(c, s, ops).guard)
  {
    assert (ops + [Op.ResetOp])[..|ops + [Op.ResetOp]| - 1] == ops;
  }

  // ---------- a frame on which an exception escapes ----------

  /** While the HSM is unavailable a genuine frame is neither accepted nor rejected: its exception escapes. */
  lemma GenuineFrameEscapes(hmac: HmacFn, key: Bytes)
    ensures var s := Provisioned(hmac, key).(failMode := true);
            var rx := Receiver([PDU], map[PDU := 0], map[PDU := 0], {}, []);
            OnFrame(Deployed(hmac), s, rx, PDU, Frame(hmac, 1, key), []) == (s, rx, Escaped(CryptoFailed))
  {
    var c, s := Deployed(hmac), Provisioned(hmac, key);
    ProvisionedIsReady(hmac, key, CanFd, []);
    CapacityOfTwo();
    FrameCarries(c, PDU, 1, [], CanFd, 2, 8, key);
    TruncationInverted(0, 16, Capacity(2), 1);
    FreshWithoutHsm(c, s.(failMode := true), Frame(hmac, 1, key), 1);
  }

  lemma FreshWithoutHsm(c: Config, s: State, frame: Bytes, v: int)
    requires s.failMode && FullValue(c, s, PDU, frame, CanFd) == Some(v) && KeyOf(c, s.store, PDU).Some?
    ensures Receive(c, s, PDU, frame, CanFd, []) == (s, Raised(CryptoFailed))
  {}

  // ---------- a recorded frame is accepted again ----------

  /** The 4095 frames of a sender that is always 16 values ahead. */
  function Ahead16(hmac: HmacFn, key: Bytes): (ops: seq<Op>)
    ensures |ops| == 4095
    ensures Jumps(Deployed(hmac), ops, PDU, 1, [], CanFd, [], 2, 8, key)
  {
    seq(4095, i requires 0 <= i < 4095 => JumpOp(Deployed(hmac), PDU, 1, i + 1, [], CanFd, [], 2, 8, key))
  }

  /** The bound of 4095 is attained: after as many other acceptances and no resync the first frame is accepted again. */
  lemma FirstFrameReplayed(hmac: HmacFn, key: Bytes)
    ensures var c, frame, ops := Deployed(hmac), Frame(hmac, 1, key), Ahead16(hmac, key);
            var (s1, first) := Receive(c, Provisioned(hmac, key), PDU, frame, CanFd, []);
            && first == Accepted([])
            && NoResync(ops, PDU) && Acceptances(c, s1, ops, PDU) == 4095
            && Receive(c, Run(c, s1, ops), PDU, frame, CanFd, []).1 == Accepted([])
  {
    var c, s, frame, ops := Deployed(hmac), Provisioned(hmac, key), Frame(hmac, 1, key), Ahead16(hmac, key);
    ProvisionedIsReady(hmac, key, CanFd, []);
    CapacityOfTwo();
    FrameCarries(c, PDU, 1, [], CanFd, 2, 8, key);
    TruncationInverted(0, 16, Capacity(2), 1);
    FrameOutcome(c, s, PDU, frame, 1, [], CanFd, [], 2, 8, key);
    BoundAttained(c, s, 0, PDU, frame, CanFd, [], ops, [], 2, 8, key);
  }

  // ---------- honest Classic CAN traffic stalls ----------

  /** On Classic CAN the provisioned receiver takes 255 honest frames and then none. */
  lemma ClassicTrafficStalls(hmac: HmacFn, key: Bytes, payloads: seq<Bytes>)
    requires forall i :: 0 <= i < |payloads| ==> |payloads[i]| <= CLASSIC_CAN_PAYLOAD
    ensures var verdicts := Rounds(Deployed(hmac), Provisioned(hmac, key), PDU, payloads, ClassicCan, []).1;
            forall i :: 0 <= i < |payloads| ==> (verdicts[i].Accepted? <==> i < 255)
  {
    ProvisionedIsReady(hmac, key, ClassicCan, []);
    CapacityOfTwo();
    ClassicCanStalls(Deployed(hmac), Provisioned(hmac, key), PDU, payloads, [], key);
  }

  /** On Classic CAN, whoever sends, no more than 255 frames are ever accepted without a resync. */
  lemma ClassicFramesRunOut(hmac: HmacFn, key: Bytes, ops: seq<Op>)
    requires NoResync(ops, PDU)
    requires forall i :: 0 <= i < |ops| && ops[i].ReceiveOp? && ops[i].pduId == PDU ==> ops[i].transport.ClassicCan?
    ensures Acceptances(Deployed(hmac), Provisioned(hmac, key), ops, PDU) <= 255
  {
    ProvisionedIsReady(hmac, key, ClassicCan, []);
    CapacityOfTwo();
    NarrowFieldRunsOut(Deployed(hmac), Provisioned(hmac, key), ops, PDU, 1);
  }

  // ---------- a profile that names HMAC-SHA512 ----------

  const SHA512_ENTRY := RawEntry({}, Some("HMAC-SHA512"), Some(KEY_ID), Some(2), Some(8), Some("v1"), Some(1), Some(3))

  /** The deployed configuration with that algorithm in the PDU's profile. */
  function DeployedSha512(hmac: HmacFn): Config {
    Deployed(hmac).(profiles := map[PDU := PROFILE.(algorithm := "HMAC-SHA512")])
  }

  lemma OnlyRenamed(hmac: HmacFn)
    ensures SameButAlgorithm(Deployed(hmac), DeployedSha512(hmac))
    ensures DeployedSha512(hmac).profiles[PDU].algorithm == "HMAC-SHA512"
  {}

  /** Reload accepts that profile. */
  lemma Sha512ProfileAccepted(hmac: HmacFn)
    ensures CheckEntry(SHA512_ENTRY) == Ok(DeployedSha512(hmac).profiles[PDU])
  {
    assert "HMAC-SHA512" in SUPPORTED_ALGORITHMS;
  }

  /**
   With it the stack sends the very HMAC-SHA256 frame it would have sent
   without it: not the frame asked for, unless the truncated MACs coincide.
   */
  lemma Sha512ProfileIgnored(hmac: HmacFn, sha512: WideHmacFn, key: Bytes)
    ensures Transmit(DeployedSha512(hmac), Provisioned(hmac, key), PDU, [], CanFd, [], false).1
         == Sent(Frame(hmac, 1, key))
    ensures Frame(hmac, 1, key) == NamedFrame(DeployedSha512(hmac), sha512, "HMAC-SHA512", 1, [], 2, 8, key)
       <==> Prefix(sha512(key, MacInput([], 1, 2)), 8) == Prefix(hmac(key, MacInput([], 1, 2)), 8)
  {
    ProvisionedIsReady(hmac, key, CanFd, []);
    OnlyRenamed(hmac);
    IgnoredAlgorithmFrame(Deployed(hmac), DeployedSha512(hmac), sha512, Provisioned(hmac, key), PDU, [], CanFd, [],
                          2, 8, key);
  }
}
