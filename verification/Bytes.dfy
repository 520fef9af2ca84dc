/** Byte strings and their big-endian reading, as int.to_bytes and int.from_bytes give them. */
module Bytes {
  import opened Arith

  type byte = x: int | 0 <= x < 256

  type Bytes = seq<byte>

  /** The number of values an n-byte field can hold: 256^n. */
  function Capacity(n: nat): (m: nat)
    ensures m > 0
  {
    Pow2(8 * n)
  }

  function FromBytes(s: Bytes): nat {
    if s == [] then 0 else FromBytes(s[..|s| - 1]) * 256 + s[|s| - 1]
  }

  function ToBytes(v: nat, n: nat): (s: Bytes)
    ensures |s| == n
  {
    if n == 0 then [] else ToBytes(v / 256, n - 1) + [v % 256]
  }

  lemma CapacityStep(n: nat)
    ensures Capacity(0) == 1
    ensures Capacity(n + 1) == 256 * Capacity(n)
  {
    Pow2Eight(8 * n);
  }

  lemma CapacityOfTwo()
    ensures Capacity(1) == 256 && Capacity(2) == 65536
  {
    CapacityStep(0);
    CapacityStep(1);
  }

  /** An n-byte string reads as a number below 256^n. */
  lemma {:induction false} FromBytesBound(s: Bytes)
    ensures FromBytes(s) < Capacity(|s|)
  {
    if s != [] {
      FromBytesBound(s[..|s| - 1]);
      CapacityStep(|s| - 1);
    }
  }

  /** Encoding a number that fits and reading it back is the identity. */
  lemma {:induction false} FromToBytes(v: nat, n: nat)
    requires v < Capacity(n)
    ensures FromBytes(ToBytes(v, n)) == v
  {
    if n > 0 {
      CapacityStep(n - 1);
      FromToBytes(v / 256, n - 1);
      var s := ToBytes(v, n);
      assert s[..|s| - 1] == ToBytes(v / 256, n - 1);
    }
  }

  /** Reading a byte string and encoding it again is the identity. */
  lemma {:induction false} ToFromBytes(s: Bytes)
    ensures ToBytes(FromBytes(s), |s|) == s
  {
    if s != [] {
      var init, last := s[..|s| - 1], s[|s| - 1];
      ToFromBytes(init);
      DivModUnique(FromBytes(s), 256, FromBytes(init), last);
      assert s == init + [last];
    }
  }

  /** Equal-length byte strings with the same reading are the same string. */
  lemma FromBytesInjective(s: Bytes, t: Bytes)
    requires |s| == |t| && FromBytes(s) == FromBytes(t)
    ensures s == t
  {
    ToFromBytes(s);
    ToFromBytes(t);
  }

  /** Python's s[:n]: a prefix that never raises. */
  function Prefix(s: Bytes, n: nat): (r: Bytes)
    ensures |r| == if n <= |s| then n else |s|
    ensures r <= s
  {
    if n <= |s| then s[..n] else s
  }
}
