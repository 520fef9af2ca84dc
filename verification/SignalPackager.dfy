/**
 The signal packager: physical values to and from bit fields of shared
 transmit buffers, one buffer per PDU until it is sent.
 */
module SignalPackager {
  import opened Arith
  import opened Bytes
  import opened SignalBits
  import opened Wrappers

  datatype SignalLayout = SignalLayout(
    pduId: int, pduLength: nat, offsetBits: nat, widthBits: nat, factor: real, offset: real)

  datatype SignalError = UnknownSignal | ValueOutOfRange | ZeroFactor | IndexError

  type Table = map<string, SignalLayout>

  type Buffers = map<int, Bytes>

  /** Every field lies inside its PDU, and signals of one PDU agree on its length. */
  ghost predicate Fits(table: Table) {
    && (forall s :: s in table ==> table[s].offsetBits + table[s].widthBits <= 8 * table[s].pduLength)
    && (forall s, t :: s in table && t in table && table[s].pduId == table[t].pduId
                       ==> table[s].pduLength == table[t].pduLength)
  }

  /** No two signals of one PDU share a bit. */
  ghost predicate Disjoint(table: Table) {
    forall s, t :: s in table && t in table && s != t && table[s].pduId == table[t].pduId
                   ==> DisjointFields(table[s], table[t])
  }

  ghost predicate DisjointFields(a: SignalLayout, b: SignalLayout) {
    a.offsetBits + a.widthBits <= b.offsetBits || b.offsetBits + b.widthBits <= a.offsetBits
  }

  ghost predicate BuffersFit(table: Table, bufs: Buffers) {
    forall s :: s in table && table[s].pduId in bufs ==> |bufs[table[s].pduId]| == table[s].pduLength
  }

  /** Round to the nearest integer, halves to the even one. */
  function RoundHalfEven(x: real): int {
    var n := x.Floor;
    var d := x - n as real;
    if d < 0.5 then n
    else if d > 0.5 then n + 1
    else if n % 2 == 0 then n else n + 1
  }

  function RawValue(layout: SignalLayout, value: real): int
    requires layout.factor != 0.0
  {
    RoundHalfEven((value - layout.offset) / layout.factor)
  }

  function PhysicalValue(layout: SignalLayout, raw: int): real {
    raw as real * layout.factor + layout.offset
  }

  function Zeros(n: nat): (b: Bytes)
    ensures |b| == n
  {
    seq(n, _ => 0)
  }

  /** How many of the signal's bits, from the top, lie inside the buffer. */
  function FitOf(layout: SignalLayout, buf: Bytes): nat {
    Fit(|buf|, layout.offsetBits, layout.widthBits)
  }

  /** The buffer is long enough for every bit of the signal. */
  predicate Inside(layout: SignalLayout, buf: Bytes) {
    FitOf(layout, buf) == layout.widthBits
  }

  /** The bits of a signal in a buffer. */
  function RawField(layout: SignalLayout, buf: Bytes): nat {
    Field(FromBytes(buf), Below(|buf|, layout.offsetBits, layout.widthBits), layout.widthBits)
  }

  /** The only buffer of that length whose number has the signal's bits that lie inside replaced by those of raw. */
  function WithField(layout: SignalLayout, buf: Bytes, raw: nat): (r: Bytes)
    ensures |r| == |buf|
    ensures var fit := FitOf(layout, buf);
            FromBytes(r) == ReplaceField(FromBytes(buf), Below(|buf|, layout.offsetBits, fit), fit,
                                         Lead(raw, layout.widthBits, fit))
  {
    var fit := FitOf(layout, buf);
    var below := Below(|buf|, layout.offsetBits, fit);
    var num := ReplaceField(FromBytes(buf), below, fit, Lead(raw, layout.widthBits, fit));
    ReplaceBound(buf, below, fit, Lead(raw, layout.widthBits, fit));
    FromToBytes(num, |buf|);
    ToBytes(num, |buf|)
  }

  /** Inside the buffer the whole field is replaced. */
  lemma WithFieldInside(layout: SignalLayout, buf: Bytes, raw: nat)
    requires Inside(layout, buf)
    ensures FromBytes(WithField(layout, buf, raw))
         == ReplaceField(FromBytes(buf), Below(|buf|, layout.offsetBits, layout.widthBits), layout.widthBits, raw)
  {}

  /** Beyond the buffer's end the leading bits that still fit are written, and no other bit changes. */
  lemma WithFieldPartial(layout: SignalLayout, buf: Bytes, raw: nat, below: nat, width: nat)
    requires raw < Pow2(layout.widthBits)
    ensures var fit := FitOf(layout, buf);
            var low := Below(|buf|, layout.offsetBits, fit);
            var after := FromBytes(WithField(layout, buf, raw));
            && Field(after, low, fit) == Lead(raw, layout.widthBits, fit)
            && (below + width <= low || low + fit <= below ==>
                  Field(after, below, width) == Field(FromBytes(buf), below, width))
  {
    var fit := FitOf(layout, buf);
    var low, lead := Below(|buf|, layout.offsetBits, fit), Lead(raw, layout.widthBits, fit);
    GetAfterSet(FromBytes(buf), low, fit, lead);
    if below + width <= low || low + fit <= below {
      SetKeepsDisjoint(FromBytes(buf), low, fit, lead, below, width);
    }
  }

  /** A replaced field never spills out of the buffer. */
  lemma ReplaceBound(buf: Bytes, below: nat, width: nat, raw: nat)
    requires below + width <= 8 * |buf|
    ensures 0 <= ReplaceField(FromBytes(buf), below, width, raw) < Capacity(|buf|)
  {
    var num, n' := FromBytes(buf), ReplaceField(FromBytes(buf), below, width, raw);
    var p, q := Pow2(below + width), Pow2(8 * |buf| - below - width);
    FromBytesBound(buf);
    ReplaceParts(num, below, width, raw);
    Pow2Add(8 * |buf| - below - width, below + width);
    ByteTopAux(num, p, q);
    DivMod(n', p);
  }

  /** The PDU's transmit buffer, or a zero-filled one of the signal's PDU length. */
  function Current(bufs: Buffers, layout: SignalLayout): Bytes {
    if layout.pduId in bufs then bufs[layout.pduId] else Zeros(layout.pduLength)
  }

  /**
   pack_signal on values: the new buffers, and the returned copy or the
   exception. A field beyond the buffer's end leaves the buffer behind, created
   if need be and partly written.
   */
  function Pack(table: Table, bufs: Buffers, name: string, value: real): (r: (Buffers, Result<Bytes, SignalError>)) {
    if name !in table then (bufs, Err(UnknownSignal))
    else
      var layout := table[name];
      if layout.factor == 0.0 then (bufs, Err(ZeroFactor))
      else
        var raw := RawValue(layout, value);
        if !(0 <= raw < Pow2(layout.widthBits)) then (bufs, Err(ValueOutOfRange))
        else
          var buf' := WithField(layout, Current(bufs, layout), raw);
          (bufs[layout.pduId := buf'], if Inside(layout, buf') then Ok(buf') else Err(IndexError))
  }

  /** send_signal on values: pack, then drop the PDU's buffer. */
  function Send(table: Table, bufs: Buffers, name: string, value: real): (r: (Buffers, Result<Bytes, SignalError>)) {
    var (bufs', res) := Pack(table, bufs, name, value);
    if res.Err? then (bufs', res) else (bufs' - {table[name].pduId}, res)
  }

  function Unpack(table: Table, pdu: Bytes, name: string): (r: Result<real, SignalError>) {
    if name !in table || |pdu| != table[name].pduLength then Err(UnknownSignal)
    else if !Inside(table[name], pdu) then Err(IndexError)
    else Ok(PhysicalValue(table[name], RawField(table[name], pdu)))
  }

  method WriteField(layout: SignalLayout, buf: array<byte>, raw: nat) returns (ok: bool)
    modifies buf
    ensures buf[..] == WithField(layout, old(buf[..]), raw)
    ensures ok <==> Inside(layout, buf[..])
  {
    ghost var was := buf[..];
    ok := SetBits(buf, layout.offsetBits, layout.widthBits, raw);
    FromBytesInjective(buf[..], WithField(layout, was, raw));
  }

  class Packager {
    const table: Table
    var txBuffers: map<int, array<byte>>

    ghost predicate Valid()
      reads this, txBuffers.Values
    {
      forall p, q :: p in txBuffers && q in txBuffers && p != q ==> txBuffers[p] != txBuffers[q]
    }

    ghost function View(): Buffers
      reads this, txBuffers.Values
    {
      map p | p in txBuffers :: txBuffers[p][..]
    }

    constructor (table: Table)
      ensures Valid() && this.table == table && View() == map[]
    {
      this.table := table;
      txBuffers := map[];
    }

    method PackSignal(name: string, value: real) returns (r: Result<Bytes, SignalError>)
      requires Valid()
      modifies this, txBuffers.Values
      ensures Valid()
      ensures (View(), r) == Pack(table, old(View()), name, value)
    {
      if name !in table {
        return Err(UnknownSignal);
      }
      var layout := table[name];
      if layout.factor == 0.0 {
        return Err(ZeroFactor);
      }
      var raw := RawValue(layout, value);
      if !(0 <= raw < Pow2(layout.widthBits)) {
        return Err(ValueOutOfRange);
      }
      r := StoreRaw(layout, raw);
    }

    /** Writes a raw value into the PDU's buffer and returns a copy of it, unless the field ends beyond the buffer. */
    method StoreRaw(layout: SignalLayout, raw: nat) returns (r: Result<Bytes, SignalError>)
      requires Valid()
      modifies this, txBuffers.Values
      ensures Valid()
      ensures var buf := WithField(layout, Current(old(View()), layout), raw);
              && View() == old(View())[layout.pduId := buf]
              && r == if Inside(layout, buf) then Ok(buf) else Err(IndexError)
    {
      var buf := BufferFor(layout);
      ghost var before := View();
      var ok := WriteField(layout, buf, raw);
      var copy := buf[..];
      r := if ok then Ok(copy) else Err(IndexError);
      forall p | p in txBuffers
        ensures View()[p] == before[layout.pduId := copy][p]
      {
      }
      assert View() == before[layout.pduId := copy];
    }

    /** The PDU's transmit buffer, created zero-filled if there is none. */
    method BufferFor(layout: SignalLayout) returns (buf: array<byte>)
      requires Valid()
      modifies this
      ensures Valid()
      ensures layout.pduId in txBuffers && buf == txBuffers[layout.pduId]
      ensures txBuffers == old(txBuffers)[layout.pduId := buf]
      ensures layout.pduId in old(txBuffers) ==> buf == old(txBuffers)[layout.pduId]
      ensures layout.pduId !in old(txBuffers) ==> fresh(buf)
      ensures View() == old(View())[layout.pduId := Current(old(View()), layout)]
    {
      if layout.pduId in txBuffers {
        buf := txBuffers[layout.pduId];
      } else {
        buf := new byte[layout.pduLength](_ => 0);
        txBuffers := txBuffers[layout.pduId := buf];
        assert buf[..] == Zeros(layout.pduLength);
      }
    }

    method SendSignal(name: string, value: real) returns (r: Result<Bytes, SignalError>)
      requires Valid()
      modifies this, txBuffers.Values
      ensures Valid()
      ensures (View(), r) == Send(table, old(View()), name, value)
    {
      r := PackSignal(name, value);
      if r.Ok? {
        ghost var packed := View();
        txBuffers := txBuffers - {table[name].pduId};
        assert View() == packed - {table[name].pduId};
      }
    }

    method UnpackSignal(pdu: Bytes, name: string) returns (r: Result<real, SignalError>)
      ensures r == Unpack(table, pdu, name)
    {
      if name !in table || |pdu| != table[name].pduLength {
        return Err(UnknownSignal);
      }
      var layout := table[name];
      var raw := GetBits(pdu, layout.offsetBits, layout.widthBits);
      r := if raw.None? then Err(IndexError) else Ok(PhysicalValue(layout, raw.value));
    }
  }

  // ---------- runs refine a map of last packed raw values ----------

  datatype Op = PackOp(name: string, value: real) | SendOp(name: string, value: real)

  /** What the buffers mean: per PDU with a live buffer, the last raw value of each packed signal. */
  type Packed = map<int, map<string, nat>>

  function Step(table: Table, bufs: Buffers, op: Op): (r: (Buffers, Result<Bytes, SignalError>))
    ensures Fits(table) && BuffersFit(table, bufs) ==> BuffersFit(table, r.0)
  {
    match op
    case PackOp(name, value) => Pack(table, bufs, name, value)
    case SendOp(name, value) => Send(table, bufs, name, value)
  }

  /** The values visible in the buffer returned by a pack that stores raw. */
  ghost function Remember(table: Table, packed: Packed, name: string, raw: nat): map<string, nat>
    requires name in table
  {
    var pdu := table[name].pduId;
    (if pdu in packed then packed[pdu] else map[])[name := raw]
  }

  ghost predicate Packs(table: Table, op: Op) {
    && op.name in table
    && table[op.name].factor != 0.0
    && 0 <= RawValue(table[op.name], op.value) < Pow2(table[op.name].widthBits)
  }

  ghost function AbstractStep(table: Table, packed: Packed, op: Op): Packed {
    if !Packs(table, op) then packed
    else
      var pdu := table[op.name].pduId;
      if op.SendOp? then packed - {pdu}
      else packed[pdu := Remember(table, packed, op.name, RawValue(table[op.name], op.value))]
  }

  function Run(table: Table, bufs: Buffers, ops: seq<Op>): (r: Buffers)
    ensures Fits(table) && BuffersFit(table, bufs) ==> BuffersFit(table, r)
    decreases |ops|
  {
    if ops == [] then bufs else Run(table, Step(table, bufs, ops[0]).0, ops[1..])
  }

  ghost function AbstractRun(table: Table, packed: Packed, ops: seq<Op>): Packed
    decreases |ops|
  {
    if ops == [] then packed else AbstractRun(table, AbstractStep(table, packed, ops[0]), ops[1..])
  }

  /** Every signal of the PDU reads from the buffer as its remembered value, 0 if it has none. */
  ghost predicate Shows(table: Table, pdu: int, buf: Bytes, values: map<string, nat>) {
    forall s :: s in table && table[s].pduId == pdu ==>
      |buf| == table[s].pduLength && RawField(table[s], buf) == if s in values then values[s] else 0
  }

  ghost predicate Refines(table: Table, bufs: Buffers, packed: Packed) {
    bufs.Keys == packed.Keys && forall p :: p in bufs ==> Shows(table, p, bufs[p], packed[p])
  }

  /** The signal just packed reads as its raw value. */
  lemma OwnField(l: SignalLayout, buf: Bytes, raw: nat)
    requires Inside(l, buf) && raw < Pow2(l.widthBits)
    ensures RawField(l, WithField(l, buf, raw)) == raw
  {
    WithFieldInside(l, buf, raw);
    GetAfterSet(FromBytes(buf), Below(|buf|, l.offsetBits, l.widthBits), l.widthBits, raw);
  }

  /** A disjoint signal reads as before. */
  lemma OtherField(l: SignalLayout, buf: Bytes, raw: nat, m: SignalLayout)
    requires Inside(l, buf) && Inside(m, buf) && DisjointFields(m, l)
    ensures RawField(m, WithField(l, buf, raw)) == RawField(m, buf)
  {
    WithFieldInside(l, buf, raw);
    SetKeepsDisjoint(FromBytes(buf), Below(|buf|, l.offsetBits, l.widthBits), l.widthBits, raw,
                     Below(|buf|, m.offsetBits, m.widthBits), m.widthBits);
  }

  /** Packing one signal changes that signal in its buffer and no other. */
  lemma WithFieldShows(table: Table, name: string, buf: Bytes, raw: nat, values: map<string, nat>)
    requires Fits(table) && Disjoint(table)
    requires name in table && raw < Pow2(table[name].widthBits)
    requires |buf| == table[name].pduLength && Shows(table, table[name].pduId, buf, values)
    ensures Shows(table, table[name].pduId, WithField(table[name], buf, raw), values[name := raw])
  {
    var l := table[name];
    var buf' := WithField(l, buf, raw);
    forall s | s in table && table[s].pduId == l.pduId
      ensures |buf'| == table[s].pduLength
      ensures RawField(table[s], buf') == if s in values[name := raw] then values[name := raw][s] else 0
    {
      if s == name {
        OwnField(l, buf, raw);
      } else {
        OtherField(l, buf, raw, table[s]);
      }
    }
  }

  lemma ZerosShow(table: Table, name: string)
    requires Fits(table) && name in table
    ensures Shows(table, table[name].pduId, Zeros(table[name].pduLength), map[])
  {
    var z := Zeros(table[name].pduLength);
    forall s | s in table && table[s].pduId == table[name].pduId
      ensures |z| == table[s].pduLength && RawField(table[s], z) == 0
    {
      ZeroBuffer(z, Below(|z|, table[s].offsetBits, table[s].widthBits), table[s].widthBits);
    }
  }

  /**
   One call refines one abstract step: it succeeds exactly when the raw value
   fits, the returned buffer shows every signal of the PDU, and a failing call
   changes nothing.
   */
  lemma StepRefines(table: Table, bufs: Buffers, packed: Packed, op: Op)
    requires Fits(table) && Disjoint(table) && BuffersFit(table, bufs) && Refines(table, bufs, packed)
    ensures var (bufs', res) := Step(table, bufs, op);
            && Refines(table, bufs', AbstractStep(table, packed, op))
            && (res.Ok? <==> Packs(table, op))
            && (res.Err? ==> bufs' == bufs)
            && (res.Ok? ==> Shows(table, table[op.name].pduId, res.value,
                                  Remember(table, packed, op.name, RawValue(table[op.name], op.value))))
  {
    if Packs(table, op) {
      var l := table[op.name];
      var buf := Current(bufs, l);
      var values := if l.pduId in packed then packed[l.pduId] else map[];
      ZerosShow(table, op.name);
      WithFieldShows(table, op.name, buf, RawValue(l, op.value), values);
    }
  }

  /**
   After any sequence of calls from empty buffers, every signal of a PDU with
   a live buffer reads as the last raw value packed since that buffer was
   created, and 0 if it was not packed since.
   */
  lemma {:induction false} RunRefines(table: Table, bufs: Buffers, packed: Packed, ops: seq<Op>)
    requires Fits(table) && Disjoint(table) && BuffersFit(table, bufs) && Refines(table, bufs, packed)
    ensures Refines(table, Run(table, bufs, ops), AbstractRun(table, packed, ops))
    decreases |ops|
  {
    if ops != [] {
      StepRefines(table, bufs, packed, ops[0]);
      RunRefines(table, Step(table, bufs, ops[0]).0, AbstractStep(table, packed, ops[0]), ops[1..]);
    }
  }

  /**
   The same from an empty packager, seen by the caller: whatever was called
   before, a successful call returns a buffer from which every signal of the
   PDU unpacks as the last value packed since the buffer was created.
   */
  lemma ReturnedBufferUnpacks(table: Table, ops: seq<Op>, op: Op, s: string)
    requires Fits(table) && Disjoint(table)
    requires Packs(table, op) && s in table && table[s].pduId == table[op.name].pduId
    ensures var values := Remember(table, AbstractRun(table, map[], ops), op.name,
                                   RawValue(table[op.name], op.value));
            var res := Step(table, Run(table, map[], ops), op).1;
            && res.Ok?
            && Unpack(table, res.value, s)
               == Ok(PhysicalValue(table[s], if s in values then values[s] else 0))
  {
    RunRefines(table, map[], map[], ops);
    StepRefines(table, Run(table, map[], ops), AbstractRun(table, map[], ops), op);
  }

  // ---------- quantisation ----------

  /** n is the nearest integer to x, and the even one where two are equally near. */
  predicate NearestEven(n: int, x: real) {
    && -0.5 <= n as real - x <= 0.5
    && (n as real - x == 0.5 || n as real - x == -0.5 ==> n % 2 == 0)
  }

  /** Rounding gives the one such integer. */
  lemma RoundingIsNearestEven(x: real, n: int)
    ensures RoundHalfEven(x) == n <==> NearestEven(n, x)
  {}

  lemma RoundingError(x: real)
    ensures -0.5 <= RoundHalfEven(x) as real - x <= 0.5
  {}

  lemma RoundingExact(k: int)
    ensures RoundHalfEven(k as real) == k
  {}

  function Abs(f: real): (a: real)
    ensures a >= 0.0 && (a == f || a == -f)
  {
    if f < 0.0 then -f else f
  }

  lemma ScaleBound(e: real, f: real)
    requires -0.5 <= e <= 0.5
    ensures -(Abs(f) / 2.0) <= e * f <= Abs(f) / 2.0
  {
    var a := Abs(f);
    assert (0.5 - e) * a >= 0.0;
    assert (0.5 + e) * a >= 0.0;
    SubMul(0.5, e, a);
    SubMul(0.5, -e, a);
    if a == f {
    } else {
      assert e * f == -(e * a);
    }
  }

  lemma DivMul(a: real, f: real)
    requires f != 0.0
    ensures a / f * f == a
  {}

  lemma MulDiv(a: real, f: real)
    requires f != 0.0
    ensures a * f / f == a
  {}

  /** The raw value's physical value is within half a step of the value it was computed from. */
  lemma RawError(l: SignalLayout, value: real)
    requires l.factor != 0.0
    ensures -(Abs(l.factor) / 2.0) <= PhysicalValue(l, RawValue(l, value)) - value <= Abs(l.factor) / 2.0
  {
    var x := (value - l.offset) / l.factor;
    var raw := RawValue(l, value) as real;
    DivMul(value - l.offset, l.factor);
    RoundingError(x);
    SubMul(raw, x, l.factor);
    ScaleBound(raw - x, l.factor);
  }

  lemma SubMul(a: real, b: real, f: real)
    ensures (a - b) * f == a * f - b * f
  {}

  /** A physical value that the signal can represent exactly quantises to its own raw value. */
  lemma RawExact(l: SignalLayout, k: int)
    requires l.factor != 0.0
    ensures RawValue(l, PhysicalValue(l, k)) == k
  {
    MulDiv(k as real, l.factor);
    assert PhysicalValue(l, k) - l.offset == k as real * l.factor;
    RoundingExact(k);
  }

  /** The raw value of a signal is this integer: the nearest to (value - offset) / factor, ties to even. */
  predicate IsRaw(l: SignalLayout, value: real, n: int)
    requires l.factor != 0.0
  {
    NearestEven(n, (value - l.offset) / l.factor)
  }

  lemma RawIs(l: SignalLayout, value: real, n: int)
    requires l.factor != 0.0
    ensures RawValue(l, value) == n <==> IsRaw(l, value, n)
  {
    RoundingIsNearestEven((value - l.offset) / l.factor, n);
  }

  /**
   What a call to pack_signal gives, for any table: which exception, in the
   source's order, and otherwise a copy of the PDU's buffer in which the signal
   reads as the nearest raw value, ties to even. The buffers change only once
   the value is known to be in range, and then only the PDU's.
   */
  lemma PackOutcome(table: Table, bufs: Buffers, name: string, value: real, n: int)
    requires name in table && table[name].factor != 0.0 ==> IsRaw(table[name], value, n)
    ensures var (bufs', r) := Pack(table, bufs, name, value);
            if name !in table then r == Err(UnknownSignal) && bufs' == bufs
            else if table[name].factor == 0.0 then r == Err(ZeroFactor) && bufs' == bufs
            else if n < 0 || n >= Pow2(table[name].widthBits) then r == Err(ValueOutOfRange) && bufs' == bufs
            else
              && table[name].pduId in bufs' && bufs' == bufs[table[name].pduId := bufs'[table[name].pduId]]
              && bufs'[table[name].pduId] == WithField(table[name], Current(bufs, table[name]), n)
              && if !EndsBeyond(table[name], |Current(bufs, table[name])|)
                 then r == Ok(bufs'[table[name].pduId]) && RawField(table[name], r.value) == n
                 else r == Err(IndexError)
  {
    if name in table && table[name].factor != 0.0 {
      var l := table[name];
      RawIs(l, value, n);
      InsideIff(l, Current(bufs, l));
      if 0 <= n < Pow2(l.widthBits) && Inside(l, Current(bufs, l)) {
        OwnField(l, Current(bufs, l), n);
      }
    }
  }

  /** Sending is packing, after which the PDU has no buffer; a send that raises leaves what packing left. */
  lemma SendOutcome(table: Table, bufs: Buffers, name: string, value: real)
    ensures var (packed, r) := Pack(table, bufs, name, value);
            Send(table, bufs, name, value)
            == if r.Ok? then (map p | p in packed && p != table[name].pduId :: packed[p], r) else (packed, r)
  {
    if Pack(table, bufs, name, value).1.Ok? {
      var packed := Pack(table, bufs, name, value).0;
      assert packed - {table[name].pduId} == map p | p in packed && p != table[name].pduId :: packed[p];
    }
  }

  /** What unpack_signal gives, for any table: which exception, and otherwise raw times factor plus offset. */
  lemma UnpackOutcome(table: Table, pdu: Bytes, name: string)
    ensures var r := Unpack(table, pdu, name);
            if name !in table || |pdu| != table[name].pduLength then r == Err(UnknownSignal)
            else if EndsBeyond(table[name], |pdu|) then r == Err(IndexError)
            else r == Ok(Scaled(RawField(table[name], pdu), table[name].factor, table[name].offset))
  {
    if name in table {
      InsideIff(table[name], pdu);
      var raw := RawField(table[name], pdu);
      PhysicalIsScaled(table[name], raw);
      assert Inside(table[name], pdu) && |pdu| == table[name].pduLength ==>
          Unpack(table, pdu, name) == Ok(PhysicalValue(table[name], raw));
    }
  }

  lemma InsideIff(l: SignalLayout, buf: Bytes)
    ensures Inside(l, buf) <==> !EndsBeyond(l, |buf|)
  {}

  lemma PhysicalIsScaled(l: SignalLayout, raw: int)
    ensures PhysicalValue(l, raw) == Scaled(raw, l.factor, l.offset)
  {}

  /** Some bit of the signal lies beyond n bytes. */
  predicate EndsBeyond(l: SignalLayout, n: nat) {
    l.widthBits > 0 && l.offsetBits + l.widthBits > 8 * n
  }

  function Scaled(raw: int, factor: real, offset: real): real {
    raw as real * factor + offset
  }

  /** A buffer that does not exist yet has the length configured for the signal, and only zeros. */
  lemma FreshBuffer(bufs: Buffers, l: SignalLayout)
    ensures Current(bufs, l)
         == if l.pduId in bufs then bufs[l.pduId] else seq(l.pduLength, _ => 0)
  {}

  /** A packed buffer unpacks to the raw value's physical value, if it has the signal's length. */
  lemma PackedUnpacks(table: Table, bufs: Buffers, name: string, value: real)
    requires Pack(table, bufs, name, value).1.Ok?
    ensures Unpack(table, Pack(table, bufs, name, value).1.value, name)
         == if |Current(bufs, table[name])| == table[name].pduLength
            then Ok(PhysicalValue(table[name], RawValue(table[name], value))) else Err(UnknownSignal)
  {
    var l := table[name];
    OwnField(l, Current(bufs, l), RawValue(l, value));
  }

  /** The value that unpacks after packing: within half a step, exact where possible, and a nearest-even raw value's. */
  ghost predicate Quantised(l: SignalLayout, value: real, u: real)
    requires l.factor != 0.0
  {
    var h := Abs(l.factor) / 2.0;
    && -h <= u - value <= h
    && ((exists k: int :: value == PhysicalValue(l, k)) ==> u == value)
    && exists n: int :: IsRaw(l, value, n) && u == Scaled(n, l.factor, l.offset)
  }

  lemma RawQuantised(l: SignalLayout, value: real)
    requires l.factor != 0.0
    ensures Quantised(l, value, PhysicalValue(l, RawValue(l, value)))
  {
    RawError(l, value);
    RawIs(l, value, RawValue(l, value));
    PhysicalIsScaled(l, RawValue(l, value));
    if k: int :| value == PhysicalValue(l, k) {
      RawExact(l, k);
    }
  }

  /**
   Whenever packing succeeds, the returned buffer can be unpacked exactly if
   it has the length configured for the signal; the result is then off by at
   most half a step of the signal, an exactly representable value comes back,
   and a value halfway between two steps goes to the even one.
   */
  lemma Quantisation(table: Table, bufs: Buffers, name: string, value: real)
    requires Pack(table, bufs, name, value).1.Ok?
    ensures var u := Unpack(table, Pack(table, bufs, name, value).1.value, name);
            && (u.Ok? <==> |Current(bufs, table[name])| == table[name].pduLength)
            && (u.Ok? ==> Quantised(table[name], value, u.value))
  {
    PackedUnpacks(table, bufs, name, value);
    RawQuantised(table[name], value);
  }
}
