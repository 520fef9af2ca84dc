/** The orchestrator and its authenticator as objects, each method proved against the protocol model. */
module SecOC {
  import opened Bytes
  import opened Wrappers
  import opened SecurityProfile
  import opened PduManager
  import opened Freshness
  import opened Keys
  import opened Policy
  import opened CanBus
  import opened SecOCModel

  class Authenticator {
    const keyManager: KeyManager?
    const hsm: Hsm
    const dem: Dem
    const provider: SecurityProfiles
    var opSeq: nat

    constructor (keyManager: KeyManager?, hsm: Hsm, dem: Dem, provider: SecurityProfiles)
      ensures this.keyManager == keyManager && this.hsm == hsm && this.dem == dem && this.provider == provider
      ensures opSeq == 0
    {
      this.keyManager := keyManager;
      this.hsm := hsm;
      this.dem := dem;
      this.provider := provider;
      opSeq := 0;
    }

    function ResolveKeyId(pduId: string, profile: Profile): Option<string>
      reads if keyManager == null then {} else {keyManager.nvm}
    {
      if keyManager != null then keyManager.Resolve(pduId) else Some(profile.keyId)
    }

    /** `slow` says whether the profiler measured more than the time budget. */
    method GenerateTruncatedMac(pduId: string, authentic: Bytes, freshness: int, transport: Transport,
                                material: Bytes, slow: bool) returns (r: Result<Bytes, Fault>)
      requires pduId in provider.profiles
      modifies this`opSeq, hsm`keys, dem
      ensures var keyId := ResolveKeyId(pduId, provider.profiles[pduId]);
              var lengths := provider.profiles[pduId].TruncationLengths(transport);
              if keyId.None? || lengths.None? then
                && r == Err(if keyId.None? then NoKey else NoClassicLengths)
                && hsm.keys == old(hsm.keys) && opSeq == old(opSeq) && dem.events == old(dem.events)
              else
                && opSeq == old(opSeq) + 1
                && (hsm.keys, r) == Mac(hsm.hmac, old(hsm.keys), hsm.failMode, keyId.value,
                                        MacInput(authentic, freshness, lengths.value.0), lengths.value.1, material)
                && dem.events == if r.Ok? && slow
                                 then old(dem.events) + [Logged(Warning, WCET_EXCEEDED, "SW-SecOC-08")]
                                 else old(dem.events)
    {
      var profile := provider.profiles[pduId];
      var keyId := ResolveKeyId(pduId, profile);
      if keyId.None? {
        return Err(NoKey);
      }
      var lengths := profile.TruncationLengths(transport);
      if lengths.None? {
        return Err(NoClassicLengths);
      }
      var (f, m) := lengths.value;
      var data := authentic + ToBytes(Truncated(freshness, f), f);
      opSeq := opSeq + 1;
      var full := hsm.HmacSha256(keyId.value, data, material);
      if full.Err? {
        return Err(CryptoFailed);
      }
      if slow {
        dem.Log(Logged(Warning, WCET_EXCEEDED, "SW-SecOC-08"));
      }
      r := Ok(Prefix(full.value, m));
    }

    method VerifyTruncatedMac(pduId: string, authentic: Bytes, freshness: int, mac: Bytes, transport: Transport,
                              material: Bytes) returns (r: Result<bool, Fault>)
      requires pduId in provider.profiles
      modifies hsm`keys
      ensures var keyId := ResolveKeyId(pduId, provider.profiles[pduId]);
              var lengths := provider.profiles[pduId].TruncationLengths(transport);
              if keyId.None? || lengths.None? then
                && r == Err(if keyId.None? then NoKey else NoClassicLengths)
                && hsm.keys == old(hsm.keys)
              else
                && var (keys', expected) := Mac(hsm.hmac, old(hsm.keys), hsm.failMode, keyId.value,
                                                MacInput(authentic, freshness, lengths.value.0), lengths.value.1,
                                                material);
                   hsm.keys == keys' && r == match expected case Ok(e) => Ok(e == mac) case Err(e) => Err(e)
    {
      var profile := provider.profiles[pduId];
      var keyId := ResolveKeyId(pduId, profile);
      if keyId.None? {
        return Err(NoKey);
      }
      var lengths := profile.TruncationLengths(transport);
      if lengths.None? {
        return Err(NoClassicLengths);
      }
      var (f, m) := lengths.value;
      var data := authentic + ToBytes(Truncated(freshness, f), f);
      var full := hsm.HmacSha256(keyId.value, data, material);
      if full.Err? {
        return Err(CryptoFailed);
      }
      r := Ok(Prefix(full.value, m) == mac);
    }
  }

  class Orchestrator {
    const provider: SecurityProfiles
    const freshness: FreshnessManager
    const authenticator: Authenticator
    const dem: Dem
    const ecu: EcuState
    const policy: SecurityPolicyEngine
    const faults: FaultManager
    const bus: SharedBus

    /** The collaborators are shared the way the application wires them. */
    ghost predicate Wired() {
      && authenticator.provider == provider
      && authenticator.dem == dem
      && (authenticator.keyManager != null ==>
            authenticator.keyManager.nvm == freshness.nvm && authenticator.keyManager.hsm == authenticator.hsm)
      && policy.ecu == ecu && policy.dem == dem
      && faults.policy == policy
    }

    function Cfg(): Config
      reads provider
    {
      Config(provider.profiles, freshness.windowSize, freshness.freshnessLength, authenticator.keyManager != null,
             authenticator.hsm.hmac)
    }

    function View(): State
      reads freshness.nvm, authenticator, authenticator.hsm, faults, policy, ecu, dem, bus
    {
      State(freshness.nvm.store, authenticator.hsm.keys, authenticator.hsm.failMode, authenticator.opSeq,
            Guard(faults.counts, policy.lockedOut, ecu.current, dem.events), bus.View())
    }

    constructor (provider: SecurityProfiles, freshness: FreshnessManager, authenticator: Authenticator,
                 dem: Dem, ecu: EcuState, bus: SharedBus)
      requires authenticator.provider == provider && authenticator.dem == dem
      requires authenticator.keyManager != null ==>
                 authenticator.keyManager.nvm == freshness.nvm && authenticator.keyManager.hsm == authenticator.hsm
      ensures Wired()
      ensures this.provider == provider && this.freshness == freshness && this.authenticator == authenticator
      ensures this.dem == dem && this.ecu == ecu && this.bus == bus
      ensures fresh(policy) && fresh(faults) && !policy.lockedOut && faults.counts == map[]
    {
      this.provider := provider;
      this.freshness := freshness;
      this.authenticator := authenticator;
      this.dem := dem;
      this.ecu := ecu;
      this.bus := bus;
      var engine := new SecurityPolicyEngine(ecu, dem);
      this.policy := engine;
      this.faults := new FaultManager(engine);
    }

    method ResetLockout()
      requires Wired()
      modifies policy, ecu
      ensures View() == old(View()).(guard := Reset(old(View()).guard))
    {
      policy.ClearLockout();
    }

    /** The authenticator's job for a PDU, seen from the whole stack. */
    method GenerateFor(pduId: string, payload: Bytes, v: int, transport: Transport, material: Bytes, slow: bool)
      returns (r: Result<Bytes, Fault>)
      requires Wired() && pduId in provider.profiles
      modifies authenticator`opSeq, authenticator.hsm`keys, dem
      ensures (View(), r) == GenerateMac(Cfg(), old(View()), pduId, payload, v, transport, material, slow)
    {
      r := authenticator.GenerateTruncatedMac(pduId, payload, v, transport, material, slow);
    }

    method VerifyFor(pduId: string, payload: Bytes, v: int, mac: Bytes, transport: Transport, material: Bytes)
      returns (r: Result<bool, Fault>)
      requires Wired() && pduId in provider.profiles
      modifies authenticator.hsm`keys
      ensures (authenticator.hsm.keys, r)
           == VerifyMac(Cfg(), old(View()), pduId, payload, v, mac, transport, material)
    {
      r := authenticator.VerifyTruncatedMac(pduId, payload, v, mac, transport, material);
    }

    method TransmitSecured(pduId: string, authentic: Bytes, transport: Transport, material: Bytes, slow: bool)
      returns (r: Transmitted)
      requires Wired()
      modifies authenticator`opSeq, authenticator.hsm`keys, dem
      ensures (View(), r) == Transmit(Cfg(), old(View()), pduId, authentic, transport, material, slow)
    {
      if pduId !in provider.profiles {
        return Failed(NoProfile);
      }
      var payload := authentic;
      if transport.ClassicCan? {
        if |authentic| > CLASSIC_CAN_PAYLOAD {
          return Failed(PayloadTooLong);
        }
        payload := authentic + seq(CLASSIC_CAN_PAYLOAD - |authentic|, _ => 0);
      }
      assert payload == Padded(authentic, transport);
      var cell := freshness.LoadLastValid(pduId);
      var loaded := AsNumber(cell);
      if loaded.None? {
        return Failed(UnreadableCell(pduId, cell, transport));
      }
      var v := loaded.value + 1;
      var mac := GenerateFor(pduId, payload, v, transport, material, slow);
      if mac.Err? {
        return Failed(mac.error);
      }
      var lengths := provider.profiles[pduId].TruncationLengths(transport);
      r := Sent(Build(payload, v, mac.value, lengths.value.0));
    }

    /** What a cell without a whole number leads to, at once or, for a float, once the MAC's input is built. */
    function UnreadableCell(pduId: string, cell: NvmCodec.Value, transport: Transport): (fault: Fault)
      requires Wired() && pduId in provider.profiles
      reads provider, freshness.nvm
      ensures cell == Cell(freshness.nvm.store, pduId) ==> fault == CellFault(Cfg(), View(), pduId, transport)
    {
      var profile := provider.profiles[pduId];
      if cell.Float? && authenticator.ResolveKeyId(pduId, profile).None? then NoKey
      else if cell.Float? && profile.TruncationLengths(transport).None? then NoClassicLengths
      else CorruptCell
    }

    method RejectAndCount(pduId: string, reason: RejectionReason)
      requires Wired()
      modifies faults, policy, ecu, dem
      ensures View() == old(View()).(guard := Reject(old(View()).guard, pduId, reason))
    {
      dem.Log(RejectionEvent(pduId, reason));
      var _ := faults.Record(pduId, Auth);
    }

    /** The checks in source order; nothing but an on-demand key is created. */
    method CheckFrame(pduId: string, frame: Bytes, transport: Transport, material: Bytes) returns (verdict: Verdict)
      requires Wired()
      modifies authenticator.hsm`keys
      ensures (authenticator.hsm.keys, verdict) == Judge(Cfg(), old(View()), pduId, frame, transport, material)
    {
      if pduId !in provider.profiles {
        return Throw(NoProfile);
      }
      var lengths := provider.profiles[pduId].TruncationLengths(transport);
      if lengths.None? {
        return Throw(NoClassicLengths);
      }
      var parsed := ParseFrame(frame, lengths.value.0, lengths.value.1, transport);
      if parsed.Malformed? {
        return Refuse(MalformedStructure);
      }
      var checked := freshness.ValidateFreshness(pduId, parsed.freshness);
      match checked
      case Unreadable =>
        return Throw(CorruptCell);
      case FloatFull(_) =>
        return Throw(UnreadableCell(pduId, freshness.LoadLastValid(pduId), transport));
      case OutOfWindow =>
        return Refuse(FreshnessOutOfWindow);
      case Full(full) =>
        verdict := VerifyFull(pduId, parsed, full, transport, material);
    }

    /** The MAC check of a parsed frame with its full value. */
    method VerifyFull(pduId: string, parsed: Parse, full: int, transport: Transport, material: Bytes)
      returns (verdict: Verdict)
      requires Wired() && pduId in provider.profiles && parsed.Parsed?
      modifies authenticator.hsm`keys
      ensures var (keys', ok) := VerifyMac(Cfg(), old(View()), pduId, parsed.authentic, full, parsed.mac, transport,
                                           material);
              && authenticator.hsm.keys == keys'
              && verdict == match ok
                            case Err(e) => Throw(e)
                            case Ok(good) => if good then Take(full, parsed.authentic) else Refuse(MacMismatch)
    {
      var good := VerifyFor(pduId, parsed.authentic, full, parsed.mac, transport, material);
      if good.Err? {
        return Throw(good.error);
      }
      verdict := if good.value then Take(full, parsed.authentic) else Refuse(MacMismatch);
    }

    method ReceiveSecured(pduId: string, frame: Bytes, transport: Transport, material: Bytes) returns (r: Received)
      requires Wired()
      modifies freshness.nvm, authenticator.hsm`keys, faults, policy, ecu, dem, bus
      ensures (View(), r) == Receive(Cfg(), old(View()), pduId, frame, transport, material)
      ensures r.Accepted? ==> freshness.nvm.Durable()
    {
      var verdict := CheckFrame(pduId, frame, transport, material);
      match verdict
      case Throw(fault) =>
        r := Raised(fault);
      case Refuse(reason) =>
        RejectAndCount(pduId, reason);
        r := Rejected(reason);
      case Take(full, payload) =>
        freshness.CommitFreshness(pduId, full);
        bus.PublishFrame(pduId, frame);
        r := Accepted(payload);
    }
  }
}
