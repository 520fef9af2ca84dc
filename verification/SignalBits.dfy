/**
 The bit loops of the signal packager, proved against field arithmetic on the
 number that the whole buffer spells in big-endian order.
 */
module SignalBits {
  import opened Arith
  import opened Bytes
  import opened Wrappers

  /** How many bits of an n-byte buffer lie to the right of the field; none if it ends beyond the buffer. */
  function Below(n: nat, offset: nat, width: nat): nat {
    if offset + width <= 8 * n then 8 * n - offset - width else 0
  }

  /** How many of the field's bits, from its top, lie inside an n-byte buffer. */
  function Fit(n: nat, offset: nat, width: nat): (fit: nat)
    ensures fit <= width
  {
    if offset + width <= 8 * n then width else if offset <= 8 * n then 8 * n - offset else 0
  }

  /** The field of the given width that has `below` bits to its right. */
  function Field(num: int, below: nat, width: nat): (v: nat)
    ensures v < Pow2(width)
  {
    (num / Pow2(below)) % Pow2(width)
  }

  /** The number with that field, and nothing else, replaced by the low bits of raw. */
  function ReplaceField(num: int, below: nat, width: nat, raw: nat): int {
    num / Pow2(below + width) * Pow2(below + width) + raw % Pow2(width) * Pow2(below) + num % Pow2(below)
  }

  function Bit(num: int, j: nat): (b: nat)
    ensures b < 2
  {
    (num / Pow2(j)) % 2
  }

  // ---------- single bits of a byte ----------

  /** The | of two non-negative integers, bit by bit. */
  function BitOr(x: nat, y: nat): nat {
    if x == 0 && y == 0 then 0
    else 2 * BitOr(x / 2, y / 2) + if x % 2 == 1 || y % 2 == 1 then 1 else 0
  }

  /** x & ~y for non-negative integers, bit by bit. */
  function BitAndNot(x: nat, y: nat): nat {
    if x == 0 then 0
    else 2 * BitAndNot(x / 2, y / 2) + if x % 2 == 1 && y % 2 == 0 then 1 else 0
  }

  /** One bit of x is one bit of its half, one place down. */
  lemma BitOfHalf(x: nat, k: nat)
    requires k > 0
    ensures Bit(x, k) == Bit(x / 2, k - 1)
  {
    DivModSplit(x, Pow2(k - 1), 2);
  }

  lemma {:induction false} OrZero(x: nat)
    ensures BitOr(x, 0) == x
  {
    if x != 0 {
      OrZero(x / 2);
    }
  }

  lemma {:induction false} AndNotZero(x: nat)
    ensures BitAndNot(x, 0) == x
  {
    if x != 0 {
      AndNotZero(x / 2);
    }
  }

  lemma DoubleProduct(a: int, p: int)
    ensures 2 * (a * p) == a * (2 * p)
  {}

  lemma OrStep(x: nat, p: nat)
    requires p > 0
    ensures BitOr(x, 2 * p) == 2 * BitOr(x / 2, p) + x % 2
  {
    assert (2 * p) / 2 == p && (2 * p) % 2 == 0;
  }

  lemma AndNotStep(x: nat, p: nat)
    ensures BitAndNot(x, 2 * p) == 2 * BitAndNot(x / 2, p) + x % 2
  {
    assert (2 * p) / 2 == p && (2 * p) % 2 == 0;
  }

  /** OR with 2^k sets bit k of x and changes nothing else. */
  lemma {:induction false} OrPower(x: nat, k: nat)
    ensures BitOr(x, Pow2(k)) == x + (1 - Bit(x, k)) * Pow2(k)
  {
    if k == 0 {
      OrZero(x / 2);
    } else {
      var p, b := Pow2(k - 1), Bit(x / 2, k - 1);
      OrPower(x / 2, k - 1);
      BitOfHalf(x, k);
      OrStep(x, p);
      DoubleProduct(1 - b, p);
    }
  }

  /** AND with ~2^k clears bit k of x and changes nothing else. */
  lemma {:induction false} AndNotPower(x: nat, k: nat)
    ensures BitAndNot(x, Pow2(k)) == x - Bit(x, k) * Pow2(k)
  {
    if k == 0 {
      AndNotZero(x / 2);
    } else {
      var p, b := Pow2(k - 1), Bit(x / 2, k - 1);
      AndNotPower(x / 2, k - 1);
      BitOfHalf(x, k);
      AndNotStep(x, p);
      DoubleProduct(b, p);
    }
  }

  /** The byte after the source's in-place update of bit k to v. */
  function WithBit(b: byte, k: nat, v: nat): (r: byte)
    requires k < 8 && v < 2
    ensures r == b + (v - Bit(b, k)) * Pow2(k)
  {
    OrPower(b, k);
    AndNotPower(b, k);
    ByteRange(b, k);
    if v == 1 then BitOr(b, Pow2(k)) else BitAndNot(b, Pow2(k))
  }

  /** Splitting off the lowest k + 1 bits, the highest of them first. */
  lemma LowBits(x: int, k: nat)
    ensures x % Pow2(k + 1) == Bit(x, k) * Pow2(k) + x % Pow2(k)
    ensures x / Pow2(k) == 2 * (x / Pow2(k + 1)) + Bit(x, k)
  {
    DivModSplit(x, 2, Pow2(k));
    DivMod(x / Pow2(k), 2);
  }

  /** A multiple of p that lies below a multiple of p is at least one p below it. */
  lemma NextMultiple(h: int, n: int, p: int)
    requires p > 0 && h * p < n * p
    ensures h * p + p <= n * p
  {
    assert h < n by {
      if h >= n { MulLe(n, h, p); }
    }
    MulLe(h + 1, n, p);
    assert (h + 1) * p == h * p + p;
  }

  lemma ByteTopAux(b: int, p: int, n: int)
    requires p > 0 && 0 <= b < n * p
    ensures 0 <= b / p * p && b / p * p + p <= n * p
  {
    DivMod(b, p);
    MulLe(0, b / p, p);
    NextMultiple(b / p, n, p);
  }

  /** A byte leaves room for the whole of the bits up to k above its higher part. */
  lemma ByteTop(b: byte, k: nat)
    requires k < 8
    ensures 0 <= b / Pow2(k + 1) * Pow2(k + 1)
    ensures b / Pow2(k + 1) * Pow2(k + 1) + Pow2(k + 1) <= 256
  {
    var p, n := Pow2(k + 1), Pow2(7 - k);
    assert n * p == 256 by {
      Pow2Add(7 - k, k + 1);
      Pow2Eight(0);
    }
    ByteTopAux(b, p, n);
  }

  /** A byte with one of its eight bits set or cleared is still a byte. */
  lemma ByteRange(b: byte, k: nat)
    requires k < 8
    ensures 0 <= b - Bit(b, k) * Pow2(k)
    ensures b + (1 - Bit(b, k)) * Pow2(k) < 256
  {
    ByteTop(b, k);
    LowBits(b, k);
    DivMod(b, Pow2(k + 1));
    DivMod(b, Pow2(k));
    MulSub(1, Bit(b, k), Pow2(k));
  }

  // ---------- bits of the whole number ----------

  /** The low eight bits of a number are those of its last byte. */
  lemma BitOfLastByte(a: nat, last: byte, k: nat)
    requires k < 8
    ensures Bit(a * 256 + last, k) == Bit(last, k)
  {
    Pow2Eight(0);
    Pow2Add(8 - k, k);
    MulAssoc(a, Pow2(8 - k), Pow2(k));
    ModShift(last, a * Pow2(8 - k), Pow2(k));
    assert a * Pow2(8 - k) == a * Pow2(7 - k) * 2 by {
      MulAssoc(a, Pow2(7 - k), 2);
    }
    ModShift(last / Pow2(k), a * Pow2(7 - k), 2);
  }

  /** Every higher bit is a bit of the number without its last byte. */
  lemma BitAboveLastByte(a: nat, last: byte, j: nat)
    ensures Bit(a * 256 + last, j + 8) == Bit(a, j)
  {
    DivModUnique(a * 256 + last, 256, a, last);
    Pow2Eight(0);
    Pow2Add(j, 8);
    DivModSplit(a * 256 + last, Pow2(j), 256);
  }

  /** Bit k of byte i is bit 8(n-1-i)+k of the number. */
  lemma {:induction false} BitOfNumber(s: Bytes, i: nat, k: nat)
    requires i < |s| && k < 8
    ensures Bit(FromBytes(s), 8 * (|s| - 1 - i) + k) == Bit(s[i], k)
  {
    var init, last := s[..|s| - 1], s[|s| - 1];
    if i == |s| - 1 {
      BitOfLastByte(FromBytes(init), last, k);
    } else {
      BitOfNumber(init, i, k);
      BitAboveLastByte(FromBytes(init), last, 8 * (|s| - 2 - i) + k);
    }
  }

  /** Changing one byte moves the number by the change at that byte's weight. */
  lemma {:induction false} NumberOfUpdate(s: Bytes, i: nat, x: byte)
    requires i < |s|
    ensures FromBytes(s[i := x]) == FromBytes(s) + (x - s[i]) * Pow2(8 * (|s| - 1 - i))
  {
    var init, last := s[..|s| - 1], s[|s| - 1];
    var t := s[i := x];
    if i == |s| - 1 {
      assert t[..|t| - 1] == init;
    } else {
      assert t[..|t| - 1] == init[i := x];
      NumberOfUpdate(init, i, x);
      var w := Pow2(8 * (|s| - 2 - i));
      Pow2Eight(8 * (|s| - 2 - i));
      MulAssoc(x - s[i], w, 256);
      assert t[|t| - 1] == last;
    }
  }

  /** Writing bit value v at position k of byte i replaces exactly that bit of the number. */
  lemma NumberWithBit(s: Bytes, i: nat, k: nat, v: nat)
    requires i < |s| && k < 8 && v < 2
    ensures var j := 8 * (|s| - 1 - i) + k;
            FromBytes(s[i := WithBit(s[i], k, v)]) == FromBytes(s) + (v - Bit(FromBytes(s), j)) * Pow2(j)
  {
    var m, x := 8 * (|s| - 1 - i), WithBit(s[i], k, v);
    BitOfNumber(s, i, k);
    NumberOfUpdate(s, i, x);
    Pow2Add(k, m);
    MulAssoc(v - Bit(s[i], k), Pow2(k), Pow2(m));
  }

  // ---------- the loops ----------

  /** One more bit of a field, from the top. */
  lemma FieldStep(num: int, below: nat, i: nat)
    ensures Field(num, below, i + 1) == 2 * Field(num, below + 1, i) + Bit(num, below)
  {
    var x := num / Pow2(below);
    DivModSplit(num, 2, Pow2(below));
    DivModSplit(x, Pow2(i), 2);
  }

  /** None where the source runs past the end of the data, which it does unless every bit lies inside. */
  method GetBits(data: Bytes, offset: nat, width: nat) returns (field: Option<nat>)
    ensures field == if Fit(|data|, offset, width) < width then None
                     else Some(Field(FromBytes(data), Below(|data|, offset, width), width))
  {
    var raw := 0;
    for i := 0 to width
      invariant i > 0 ==> offset + i <= 8 * |data|
      invariant raw == Field(FromBytes(data), Below(|data|, offset, i), i)
    {
      var bitIndex := offset + i;
      var byteIndex, bitInByte := bitIndex / 8, bitIndex % 8;
      if byteIndex >= |data| {
        return None;
      }
      var bitValue := data[byteIndex] / Pow2(7 - bitInByte) % 2;
      BitOfNumber(data, byteIndex, 7 - bitInByte);
      FieldStep(FromBytes(data), 8 * |data| - offset - i - 1, i);
      raw := 2 * raw + bitValue;
    }
    field := Some(raw);
  }

  /** The number after the top i bits of the field have been written. */
  ghost function Written(num: int, below: nat, width: nat, raw: nat, i: nat): int
    requires i <= width
  {
    num / Pow2(below + width) * Pow2(below + width)
    + raw % Pow2(width) / Pow2(width - i) * Pow2(below + width - i)
    + num % Pow2(below + width - i)
  }

  lemma WrittenStart(num: int, below: nat, width: nat, raw: nat)
    ensures Written(num, below, width, raw, 0) == num
  {
    DivMod(num, Pow2(below + width));
    DivModUnique(raw % Pow2(width), Pow2(width), 0, raw % Pow2(width));
  }

  lemma WrittenEnd(num: int, below: nat, width: nat, raw: nat)
    ensures Written(num, below, width, raw, width) == ReplaceField(num, below, width, raw)
  {
    assert Pow2(0) == 1;
  }

  /** Bit j only depends on the remainder by 2^(j+1). */
  lemma BitOfLow(x: int, y: int, j: nat)
    requires x % Pow2(j + 1) == y % Pow2(j + 1)
    ensures Bit(x, j) == Bit(y, j)
  {
    DivModSplit(x, 2, Pow2(j));
    DivModSplit(y, 2, Pow2(j));
  }

  /** Below the part already written a partly written number still is the original. */
  lemma WrittenLow(num: int, below: nat, width: nat, raw: nat, i: nat)
    requires i < width
    ensures var j := below + width - i - 1;
            Bit(Written(num, below, width, raw, i), j) == Bit(num, j)
  {
    var j := below + width - i - 1;
    var hi, q := num / Pow2(below + width), raw % Pow2(width) / Pow2(width - i);
    var p, u := Pow2(j + 1), Pow2(i);
    assert Pow2(below + width) == u * p by {
      Pow2Add(i, j + 1);
    }
    SumOfMultiples(hi, u, q, p);
    ModShift(num % p, hi * u + q, p);
    DivModUnique(num % p, p, 0, num % p);
    BitOfLow(Written(num, below, width, raw, i), num, j);
  }

  lemma SumOfMultiples(a: int, u: int, b: int, p: int)
    ensures a * (u * p) + b * p == (a * u + b) * p
  {}

  /** A bit below the width survives the reduction to that width. */
  lemma BitOfMod(raw: int, k: nat, width: nat)
    requires k < width
    ensures Bit(raw % Pow2(width), k) == Bit(raw, k)
  {
    var r := raw % Pow2(width);
    DivModSplit(raw, 2, Pow2(k));
    DivModSplit(r, 2, Pow2(k));
    Pow2Monotone(k + 1, width);
    ModOfMod(raw, Pow2(k + 1), Pow2(width));
  }

  lemma WrittenStep(num: int, below: nat, width: nat, raw: nat, i: nat)
    requires i < width
    ensures var j := below + width - i - 1;
            var v := Bit(raw, width - 1 - i);
            Written(num, below, width, raw, i + 1)
            == Written(num, below, width, raw, i) + (v - Bit(num, j)) * Pow2(j)
  {
    var j, k := below + width - i - 1, width - 1 - i;
    var r := raw % Pow2(width);
    LowBits(num, j);
    LowBits(r, k);
    BitOfMod(raw, k, width);
    Regroup(r / Pow2(k + 1), Bit(raw, k), Bit(num, j), Pow2(j));
  }

  lemma Regroup(q: int, v: int, b: int, p: int)
    ensures (2 * q + v) * p == q * (2 * p) + b * p + (v - b) * p
  {}

  /** The leading `fit` bits of a raw value of the given width. */
  function Lead(raw: nat, width: nat, fit: nat): (lead: nat)
    requires fit <= width
    ensures fit == width ==> lead == raw
    ensures raw < Pow2(width) ==> lead < Pow2(fit)
  {
    LeadBound(raw, width, fit);
    raw / Pow2(width - fit)
  }

  lemma LeadBound(raw: nat, width: nat, fit: nat)
    requires fit <= width
    ensures raw / Pow2(width - fit) >= 0
    ensures fit == width ==> raw / Pow2(width - fit) == raw
    ensures raw < Pow2(width) ==> raw / Pow2(width - fit) < Pow2(fit)
  {
    Pow2Add(fit, width - fit);
    QuotientBound(raw, Pow2(width - fit), Pow2(fit));
  }

  lemma QuotientBound(x: nat, p: nat, n: nat)
    requires p > 0
    ensures x / p >= 0
    ensures p == 1 ==> x / p == x
    ensures x < n * p ==> x / p < n
  {
    DivMod(x, p);
    if x / p >= n {
      MulLe(n, x / p, p);
    }
    if x / p < 0 {
      MulLe(x / p, -1, p);
    }
  }

  /** Bit i from the top of the whole raw value is bit i from the top of its leading `fit` bits. */
  lemma TopBits(raw: nat, width: nat, fit: nat, i: nat)
    requires i < fit <= width
    ensures Bit(raw, width - 1 - i) == Bit(Lead(raw, width, fit), fit - 1 - i)
  {
    Pow2Add(fit - 1 - i, width - fit);
    DivModSplit(raw, Pow2(fit - 1 - i), Pow2(width - fit));
  }

  /** Writing the next bit of the field to its place in its byte. */
  lemma WriteStep(was: Bytes, num: int, below: nat, width: nat, raw: nat, i: nat, byteIndex: nat, k: nat, v: nat)
    requires i < width && byteIndex < |was| && k < 8
    requires FromBytes(was) == Written(num, below, width, raw, i)
    requires 8 * (|was| - 1 - byteIndex) + k == below + width - i - 1 && v == Bit(raw, width - 1 - i)
    ensures FromBytes(was[byteIndex := WithBit(was[byteIndex], k, v)]) == Written(num, below, width, raw, i + 1)
  {
    WrittenLow(num, below, width, raw, i);
    WrittenStep(num, below, width, raw, i);
    NumberWithBit(was, byteIndex, k, v);
  }

  /** Where bit i of the field stands, and that it is inside the buffer while fitting bits are left. */
  lemma Position(n: nat, offset: nat, width: nat, i: nat)
    requires i < width && i <= Fit(n, offset, width)
    ensures var fit, bitIndex := Fit(n, offset, width), offset + i;
            && (bitIndex / 8 < n <==> i < fit)
            && (i < fit ==> 8 * (n - 1 - bitIndex / 8) + (7 - bitIndex % 8) == Below(n, offset, fit) + fit - i - 1)
  {}

  /** Sets bit k of one byte to v. */
  method WriteBit(buf: array<byte>, byteIndex: nat, k: nat, v: nat)
    requires byteIndex < buf.Length && k < 8 && v < 2
    modifies buf
    ensures buf[..] == old(buf[..])[byteIndex := WithBit(old(buf[byteIndex]), k, v)]
  {
    ghost var updated := WithBit(buf[byteIndex], k, v);
    if v == 1 {
      buf[byteIndex] := BitOr(buf[byteIndex], Pow2(k));
    } else {
      buf[byteIndex] := BitAndNot(buf[byteIndex], Pow2(k));
    }
  }

  /**
   Writes the leading bits of raw that lie inside the buffer, and fails after
   them if any bit lies outside, as the source does by raising IndexError.
   */
  method SetBits(buf: array<byte>, offset: nat, width: nat, raw: nat) returns (ok: bool)
    modifies buf
    ensures ok <==> Fit(buf.Length, offset, width) == width
    ensures var fit := Fit(buf.Length, offset, width);
            FromBytes(buf[..]) == ReplaceField(FromBytes(old(buf[..])), Below(buf.Length, offset, fit), fit,
                                               Lead(raw, width, fit))
  {
    ghost var fit := Fit(buf.Length, offset, width);
    ghost var num, below, lead := FromBytes(buf[..]), Below(buf.Length, offset, fit), Lead(raw, width, fit);
    WrittenStart(num, below, fit, lead);
    WrittenEnd(num, below, fit, lead);
    for i := 0 to width
      invariant i <= fit
      invariant FromBytes(buf[..]) == Written(num, below, fit, lead, i)
    {
      var bitIndex := offset + i;
      var byteIndex, bitInByte := bitIndex / 8, bitIndex % 8;
      Position(buf.Length, offset, width, i);
      if byteIndex >= buf.Length {
        return false;
      }
      var bitValue := (raw / Pow2(width - 1 - i)) % 2;
      TopBits(raw, width, fit, i);
      WriteStep(buf[..], num, below, fit, lead, i, byteIndex, 7 - bitInByte, bitValue);
      WriteBit(buf, byteIndex, 7 - bitInByte, bitValue);
    }
    ok := true;
  }

  // ---------- what replacing a field means ----------

  lemma ReplaceParts(num: int, below: nat, width: nat, raw: nat)
    ensures var n' := ReplaceField(num, below, width, raw);
            && n' % Pow2(below) == num % Pow2(below)
            && n' / Pow2(below + width) == num / Pow2(below + width)
            && Field(n', below, width) == raw % Pow2(width)
  {
    var n' := ReplaceField(num, below, width, raw);
    var p, w := Pow2(below), Pow2(width);
    var hi, v, lo := num / Pow2(below + width), raw % w, num % p;
    Pow2Add(width, below);
    MulLe(v, w - 1, p);
    MulLe(0, v, p);
    assert (w - 1) * p == w * p - p;
    DivModUnique(n', w * p, hi, v * p + lo);
    DivModUnique(v * p + lo, p, v, lo);
    DivModSplit(n', w, p);
  }

  /** Reading back the field just written gives the raw value. */
  lemma GetAfterSet(num: int, below: nat, width: nat, raw: nat)
    requires raw < Pow2(width)
    ensures Field(ReplaceField(num, below, width, raw), below, width) == raw
  {
    ReplaceParts(num, below, width, raw);
    DivModUnique(raw, Pow2(width), 0, raw);
  }

  /** Writing a field leaves every disjoint field as it was. */
  lemma SetKeepsDisjoint(num: int, below: nat, width: nat, raw: nat, below': nat, width': nat)
    requires below' + width' <= below || below + width <= below'
    ensures Field(ReplaceField(num, below, width, raw), below', width') == Field(num, below', width')
  {
    var n' := ReplaceField(num, below, width, raw);
    ReplaceParts(num, below, width, raw);
    if below' + width' <= below {
      var m := Pow2(below' + width');
      Pow2Monotone(below' + width', below);
      ModOfMod(n', m, Pow2(below));
      ModOfMod(num, m, Pow2(below));
      Pow2Add(width', below');
      DivModSplit(n', Pow2(width'), Pow2(below'));
      DivModSplit(num, Pow2(width'), Pow2(below'));
    } else {
      Pow2Add(below' - below - width, below + width);
      DivModSplit(n', Pow2(below' - below - width), Pow2(below + width));
      DivModSplit(num, Pow2(below' - below - width), Pow2(below + width));
    }
  }

  lemma {:induction false} ZeroNumber(s: Bytes)
    requires forall i :: 0 <= i < |s| ==> s[i] == 0
    ensures FromBytes(s) == 0
  {
    if s != [] {
      ZeroNumber(s[..|s| - 1]);
    }
  }

  /** A buffer of zero bytes spells zero, so every field in it reads zero. */
  lemma ZeroBuffer(s: Bytes, below: nat, width: nat)
    requires forall i :: 0 <= i < |s| ==> s[i] == 0
    ensures Field(FromBytes(s), below, width) == 0
  {
    ZeroNumber(s);
    DivModUnique(0, Pow2(below), 0, 0);
    DivModUnique(0, Pow2(width), 0, 0);
  }
}
