/** The wire layout of a Secured I-PDU: authentic_pdu || truncated freshness || authenticator. */
module PduManager {
  import opened Arith
  import opened Bytes
  import opened SecurityProfile

  const CLASSIC_CAN_PAYLOAD := 4

  function Truncated(v: int, f: nat): (t: nat)
    ensures t < Capacity(f)
  {
    v % Capacity(f)
  }

  function Build(authentic: Bytes, freshness: int, mac: Bytes, f: nat): Bytes {
    authentic + ToBytes(Truncated(freshness, f), f) + mac
  }

  datatype Parse = Parsed(authentic: Bytes, freshness: nat, mac: Bytes) | Malformed

  /** With a zero-length trailer the source's negative slice bounds select the whole frame. */
  function ParseFrame(frame: Bytes, f: nat, m: nat, transport: Transport): Parse {
    var trailer := f + m;
    if |frame| < trailer then Malformed
    else
      var authentic := frame[..|frame| - trailer];
      if transport.ClassicCan? && |authentic| != CLASSIC_CAN_PAYLOAD then Malformed
      else
        var start := if trailer == 0 then 0 else |frame| - trailer;
        Parsed(authentic, FromBytes(frame[start..|frame| - m]), frame[|frame| - m..])
  }

  /** Frames are accepted by length alone, and parsing splits them without loss. */
  lemma ParseSplits(frame: Bytes, f: nat, m: nat, transport: Transport)
    ensures ParseFrame(frame, f, m, transport).Parsed?
       <==> |frame| >= f + m && (transport.ClassicCan? ==> |frame| == f + m + CLASSIC_CAN_PAYLOAD)
    ensures var p := ParseFrame(frame, f, m, transport);
            p.Parsed? ==>
              && |p.mac| == m
              && |p.authentic| == |frame| - f - m
              && (f + m > 0 ==> p.freshness < Capacity(f))
  {
    if |frame| >= f + m && f + m > 0 {
      FromBytesBound(frame[|frame| - f - m..|frame| - m]);
    }
  }

  /** On Classic CAN a profile accepted by reload parses frames of exactly eight bytes. */
  lemma ClassicFramesAreEightBytes(p: Profile, frame: Bytes)
    requires FitsClassicCan(p) && p.TruncationLengths(ClassicCan).Some?
    ensures var (f, m) := p.TruncationLengths(ClassicCan).value;
            ParseFrame(frame, f, m, ClassicCan).Parsed? <==> |frame| == 8
  {}

  /**
   Parsing a built frame recovers payload, truncated freshness and MAC. With
   an empty trailer it does so only for a payload that spells zero, because
   the whole frame is then read as the freshness value.
   */
  lemma ParseOfBuild(authentic: Bytes, v: int, mac: Bytes, f: nat, m: nat, transport: Transport)
    requires |mac| == m
    requires transport.ClassicCan? ==> |authentic| == CLASSIC_CAN_PAYLOAD
    ensures ParseFrame(Build(authentic, v, mac, f), f, m, transport) == Parsed(authentic, Truncated(v, f), mac)
       <==> f + m > 0 || FromBytes(authentic) == 0
  {
    if f + m > 0 {
      PositiveTrailer(authentic, v, mac, f, m, transport);
    } else {
      EmptyTrailer(authentic, v, transport);
    }
  }

  lemma PositiveTrailer(authentic: Bytes, v: int, mac: Bytes, f: nat, m: nat, transport: Transport)
    requires |mac| == m && f + m > 0
    requires transport.ClassicCan? ==> |authentic| == CLASSIC_CAN_PAYLOAD
    ensures ParseFrame(Build(authentic, v, mac, f), f, m, transport) == Parsed(authentic, Truncated(v, f), mac)
  {
    FromToBytes(Truncated(v, f), f);
    SliceParts(authentic, ToBytes(Truncated(v, f), f), mac);
  }

  lemma EmptyTrailer(authentic: Bytes, v: int, transport: Transport)
    requires transport.ClassicCan? ==> |authentic| == CLASSIC_CAN_PAYLOAD
    ensures Truncated(v, 0) == 0
    ensures ParseFrame(Build(authentic, v, [], 0), 0, 0, transport) == Parsed(authentic, FromBytes(authentic), [])
  {
    var frame := Build(authentic, v, [], 0);
    assert frame == authentic;
    assert frame[0..|frame|] == frame[..|frame|] == authentic;
  }

  lemma SliceParts(a: Bytes, b: Bytes, c: Bytes)
    ensures var s := a + b + c;
            && s[..|s| - (|b| + |c|)] == a
            && s[|s| - (|b| + |c|)..|s| - |c|] == b
            && s[|s| - |c|..] == c
  {}

  /** A field read from the wire is written back unchanged. */
  lemma FieldRebuilt(field: Bytes)
    ensures ToBytes(Truncated(FromBytes(field), |field|), |field|) == field
  {
    FromBytesBound(field);
    DivModUnique(FromBytes(field), Capacity(|field|), 0, FromBytes(field));
    ToFromBytes(field);
  }

  lemma CutAndJoined(s: Bytes, i: nat, j: nat)
    requires i <= j <= |s|
    ensures s[..i] + s[i..j] + s[j..] == s
  {}

  /** Rebuilding a parsed frame gives the same bytes. */
  lemma BuildOfParse(frame: Bytes, f: nat, m: nat, transport: Transport)
    requires ParseFrame(frame, f, m, transport).Parsed?
    ensures var p := ParseFrame(frame, f, m, transport);
            Build(p.authentic, p.freshness, p.mac, f) == frame
  {
    var i, j := |frame| - (f + m), |frame| - m;
    CutAndJoined(frame, i, j);
    if f + m > 0 {
      var field := frame[i..j];
      assert ParseFrame(frame, f, m, transport) == Parsed(frame[..i], FromBytes(field), frame[j..]);
      FieldRebuilt(field);
    } else {
      assert ParseFrame(frame, f, m, transport) == Parsed(frame[..i], FromBytes(frame[0..j]), frame[j..]);
      assert frame[i..j] == [];
    }
  }
}
