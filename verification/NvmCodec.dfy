/** The tagged-tree codec that lets byte strings live in a JSON document. */
module NvmCodec {
  import opened Bytes

  datatype Value =
    | Null
    | Bool(b: bool)
    | Int(i: int)
    | Float(r: real)
    | Str(s: string)
    | Blob(bytes: Bytes)
    | List(items: seq<Value>)
    | Dict(fields: map<string, Value>)

  /** bytes.fromhex raises on a malformed string and on anything that is not a string. */
  datatype Decoded<+T> = Got(value: T) | Raised

  const MARKER := "__bytes_hex__"

  // ---------- bytes.hex and bytes.fromhex ----------

  function HexDigit(n: nat): (c: char)
    requires n < 16
  {
    "0123456789abcdef"[n]
  }

  function Hex(b: Bytes): string {
    if b == [] then "" else [HexDigit(b[0] / 16), HexDigit(b[0] % 16)] + Hex(b[1..])
  }

  /** The value of a hexadecimal digit of either case, or -1. */
  function HexValue(c: char): (n: int)
    ensures -1 <= n < 16
  {
    if '0' <= c <= '9' then c as int - '0' as int
    else if 'a' <= c <= 'f' then c as int - 'a' as int + 10
    else if 'A' <= c <= 'F' then c as int - 'A' as int + 10
    else -1
  }

  predicate IsSpace(c: char) {
    c == ' ' || 9 <= c as int <= 13
  }

  /** Whitespace is skipped before each byte, never between its two digits. */
  function FromHex(s: string): Decoded<Bytes> {
    if s == "" then Got([])
    else if IsSpace(s[0]) then FromHex(s[1..])
    else if |s| < 2 || HexValue(s[0]) < 0 || HexValue(s[1]) < 0 then Raised
    else
      var rest := FromHex(s[2..]);
      if rest.Raised? then Raised else Got([16 * HexValue(s[0]) + HexValue(s[1])] + rest.value)
  }

  lemma HexDigitValue(n: nat)
    requires n < 16
    ensures HexValue(HexDigit(n)) == n && !IsSpace(HexDigit(n))
  {}

  /** Two digits in front of a text add one byte in front of what it spells. */
  lemma DigitsInFront(x: byte, rest: string)
    requires FromHex(rest).Got?
    ensures FromHex([HexDigit(x / 16), HexDigit(x % 16)] + rest) == Got([x] + FromHex(rest).value)
  {
    var s := [HexDigit(x / 16), HexDigit(x % 16)] + rest;
    HexDigitValue(x / 16);
    HexDigitValue(x % 16);
    assert s[2..] == rest;
  }

  /** Every byte string survives hex and back. */
  lemma {:induction false} HexRoundTrip(b: Bytes)
    ensures FromHex(Hex(b)) == Got(b)
  {
    if b != [] {
      HexRoundTrip(b[1..]);
      DigitsInFront(b[0], Hex(b[1..]));
      assert b == [b[0]] + b[1..];
    }
  }

  predicate IsHexDigit(c: char) {
    '0' <= c <= '9' || 'a' <= c <= 'f'
  }

  /** What hex writes: two lower-case digits a byte and nothing else. */
  lemma {:induction false} HexIsLowerCase(b: Bytes)
    ensures |Hex(b)| == 2 * |b|
    ensures forall i :: 0 <= i < |Hex(b)| ==> IsHexDigit(Hex(b)[i])
  {
    if b != [] {
      HexIsLowerCase(b[1..]);
      HexDigitText(b[0] / 16);
      HexDigitText(b[0] % 16);
    }
  }

  lemma HexDigitText(n: nat)
    requires n < 16
    ensures IsHexDigit(HexDigit(n))
  {}

  /** The digit of either case that stands for n. */
  predicate Stands(c: char, n: int) {
    || (0 <= n < 10 && c as int == '0' as int + n)
    || (10 <= n < 16 && (c as int == 'a' as int + n - 10 || c as int == 'A' as int + n - 10))
  }

  lemma StandsIff(c: char, n: nat)
    ensures HexValue(c) == n <==> Stands(c, n)
  {}

  /** The text is the bytes in digits of either case, with blanks before any byte and after the last. */
  predicate Spells(s: string, b: Bytes) {
    if s == "" then b == []
    else if s[0] in " \t\n\r" || s[0] == 11 as char || s[0] == 12 as char then Spells(s[1..], b)
    else |s| >= 2 && b != [] && Stands(s[0], b[0] / 16) && Stands(s[1], b[0] % 16) && Spells(s[2..], b[1..])
  }

  lemma BlankIff(c: char)
    ensures IsSpace(c) <==> c in " \t\n\r" || c == 11 as char || c == 12 as char
  {}

  /** fromhex reads exactly the bytes that a text spells, and raises on a text that spells none. */
  lemma {:induction false} FromHexSpells(s: string, b: Bytes)
    ensures FromHex(s) == Got(b) <==> Spells(s, b)
  {
    if s != "" {
      BlankIff(s[0]);
      if IsSpace(s[0]) {
        FromHexSpells(s[1..], b);
      } else if |s| >= 2 && b != [] {
        FromHexSpells(s[2..], b[1..]);
        StandsIff(s[0], b[0] / 16);
        StandsIff(s[1], b[0] % 16);
        TwoDigits(s, b);
      }
    }
  }

  lemma TwoDigits(s: string, b: Bytes)
    requires |s| >= 2 && b != [] && !IsSpace(s[0])
    ensures FromHex(s) == Got(b)
       <==> HexValue(s[0]) == b[0] / 16 && HexValue(s[1]) == b[0] % 16 && FromHex(s[2..]) == Got(b[1..])
  {
    if HexValue(s[0]) >= 0 && HexValue(s[1]) >= 0 && FromHex(s[2..]).Got? {
      var x := 16 * HexValue(s[0]) + HexValue(s[1]);
      assert FromHex(s) == Got([x] + FromHex(s[2..]).value);
      assert x / 16 == HexValue(s[0]) && x % 16 == HexValue(s[1]);
      assert b == [b[0]] + b[1..];
      assert ([x] + FromHex(s[2..]).value)[1..] == FromHex(s[2..]).value;
    }
  }

  // ---------- trees ----------

  function Encode(v: Value): Value {
    match v
    case Blob(b) => Dict(map[MARKER := Str(Hex(b))])
    case Dict(m) => Dict(map k | k in m :: Encode(m[k]))
    case List(xs) => List(EncodeAll(xs))
    case _ => v
  }

  function EncodeAll(xs: seq<Value>): (r: seq<Value>)
    ensures |r| == |xs|
    ensures forall i :: 0 <= i < |xs| ==> r[i] == Encode(xs[i])
  {
    seq(|xs|, i requires 0 <= i < |xs| => Encode(xs[i]))
  }

  predicate IsTagged(m: map<string, Value>) {
    m.Keys == {MARKER}
  }

  /** A failure anywhere inside fails the whole document, as the exception does. */
  function Decode(v: Value): Decoded<Value> {
    match v
    case Dict(m) =>
      if IsTagged(m) then
        if m[MARKER].Str? then
          var b := FromHex(m[MARKER].s);
          if b.Got? then Got(Blob(b.value)) else Raised
        else Raised
      else if forall k :: k in m ==> Decode(m[k]).Got?
      then Got(Dict(map k | k in m :: Decode(m[k]).value))
      else Raised
    case List(xs) =>
      if forall i :: 0 <= i < |xs| ==> Decode(xs[i]).Got?
      then Got(List(seq(|xs|, i requires 0 <= i < |xs| => Decode(xs[i]).value)))
      else Raised
    case _ => Got(v)
  }

  /** No dictionary in the tree has exactly the marker as its key set. */
  predicate Untagged(v: Value) {
    match v
    case Dict(m) => !IsTagged(m) && forall k :: k in m ==> Untagged(m[k])
    case List(xs) => forall i :: 0 <= i < |xs| ==> Untagged(xs[i])
    case _ => true
  }

  /** JSON can hold an encoded tree: no byte string is left in it. */
  predicate JsonReady(v: Value) {
    match v
    case Dict(m) => forall k :: k in m ==> JsonReady(m[k])
    case List(xs) => forall i :: 0 <= i < |xs| ==> JsonReady(xs[i])
    case Blob(_) => false
    case _ => true
  }

  lemma {:induction false} EncodeIsJsonReady(v: Value)
    ensures JsonReady(Encode(v))
  {
    match v
    case Dict(m) =>
      forall k | k in m { EncodeIsJsonReady(m[k]); }
    case List(xs) =>
      forall i | 0 <= i < |xs| { EncodeIsJsonReady(xs[i]); }
    case _ =>
  }

  lemma DictRoundTrip(m: map<string, Value>)
    requires forall k :: k in m ==> (Decode(Encode(m[k])) == Got(m[k]) <==> Untagged(m[k]))
    ensures Decode(Encode(Dict(m))) == Got(Dict(m)) <==> Untagged(Dict(m))
  {
    var e := map k | k in m :: Encode(m[k]);
    assert e.Keys == m.Keys;
    if !IsTagged(m) && Decode(Dict(e)).Got? {
      var d := map k | k in e :: Decode(e[k]).value;
      assert Decode(Dict(e)) == Got(Dict(d));
      assert d == m <==> forall k :: k in m ==> Decode(e[k]) == Got(m[k]);
    }
  }

  lemma ListRoundTrip(xs: seq<Value>)
    requires forall i :: 0 <= i < |xs| ==> (Decode(Encode(xs[i])) == Got(xs[i]) <==> Untagged(xs[i]))
    ensures Decode(Encode(List(xs))) == Got(List(xs)) <==> Untagged(List(xs))
  {
    var e := EncodeAll(xs);
    if Decode(List(e)).Got? {
      var d := seq(|e|, i requires 0 <= i < |e| => Decode(e[i]).value);
      assert Decode(List(e)) == Got(List(d));
      assert d == xs <==> forall i :: 0 <= i < |xs| ==> Decode(e[i]) == Got(xs[i]);
    }
  }

  /** Decoding an encoded tree gives the tree back exactly when no dictionary imitates the tag. */
  lemma {:induction false} RoundTrip(v: Value)
    ensures Decode(Encode(v)) == Got(v) <==> Untagged(v)
  {
    match v
    case Blob(b) =>
      HexRoundTrip(b);
    case Dict(m) =>
      forall k | k in m { RoundTrip(m[k]); }
      DictRoundTrip(m);
    case List(xs) =>
      forall i | 0 <= i < |xs| { RoundTrip(xs[i]); }
      ListRoundTrip(xs);
    case _ =>
  }

  /** w is v with every dictionary that has the marker as its one key replaced by the bytes spelled there. */
  predicate Replaced(v: Value, w: Value) {
    match v
    case Dict(m) =>
      if m.Keys == {"__bytes_hex__"} then
        m["__bytes_hex__"].Str? && w.Blob? && Spells(m["__bytes_hex__"].s, w.bytes)
      else w.Dict? && w.fields.Keys == m.Keys && forall k :: k in m ==> Replaced(m[k], w.fields[k])
    case List(xs) => w.List? && |w.items| == |xs| && forall i :: 0 <= i < |xs| ==> Replaced(xs[i], w.items[i])
    case _ => w == v
  }

  /** Decoding any document gives exactly that tree, and raises where there is none. */
  lemma {:induction false} DecodeReplaces(v: Value, w: Value)
    ensures Decode(v) == Got(w) <==> Replaced(v, w)
  {
    match v
    case Dict(m) =>
      if IsTagged(m) {
        TagReplaced(m, w);
      } else if w.Dict? && w.fields.Keys == m.Keys {
        forall k | k in m { DecodeReplaces(m[k], w.fields[k]); }
        DictReplaced(m, w.fields);
      } else {
        assert !Replaced(v, w);
        if Decode(v).Got? {
          assert Decode(v).value.fields.Keys == m.Keys;
        }
      }
    case List(xs) =>
      if w.List? && |w.items| == |xs| {
        forall i | 0 <= i < |xs| { DecodeReplaces(xs[i], w.items[i]); }
        ListReplaced(xs, w.items);
      }
    case _ =>
  }

  lemma TagReplaced(m: map<string, Value>, w: Value)
    requires IsTagged(m)
    ensures Decode(Dict(m)) == Got(w) <==> Replaced(Dict(m), w)
  {
    assert MARKER in m.Keys;
    if m[MARKER].Str? && w.Blob? {
      FromHexSpells(m[MARKER].s, w.bytes);
    }
  }

  lemma DictReplaced(m: map<string, Value>, d: map<string, Value>)
    requires !IsTagged(m) && d.Keys == m.Keys
    requires forall k :: k in m ==> (Decode(m[k]) == Got(d[k]) <==> Replaced(m[k], d[k]))
    ensures Decode(Dict(m)) == Got(Dict(d)) <==> Replaced(Dict(m), Dict(d))
  {
    if forall k :: k in m ==> Decode(m[k]).Got? {
      var e := map k | k in m :: Decode(m[k]).value;
      assert Decode(Dict(m)) == Got(Dict(e));
      assert e == d <==> forall k :: k in m ==> Decode(m[k]) == Got(d[k]);
    }
  }

  lemma ListReplaced(xs: seq<Value>, ys: seq<Value>)
    requires |ys| == |xs|
    requires forall i :: 0 <= i < |xs| ==> (Decode(xs[i]) == Got(ys[i]) <==> Replaced(xs[i], ys[i]))
    ensures Decode(List(xs)) == Got(List(ys)) <==> Replaced(List(xs), List(ys))
  {
    if forall i :: 0 <= i < |xs| ==> Decode(xs[i]).Got? {
      var d := seq(|xs|, i requires 0 <= i < |xs| => Decode(xs[i]).value);
      assert Decode(List(xs)) == Got(List(d));
      assert d == ys <==> forall i :: 0 <= i < |xs| ==> Decode(xs[i]) == Got(ys[i]);
    }
  }
}
