/** Powers of two and the division facts the byte and bit codecs rest on. */
module Arith {

  function Pow2(n: nat): (p: nat)
    ensures p > 0
  {
    if n == 0 then 1 else 2 * Pow2(n - 1)
  }

  lemma {:induction false} Pow2Add(a: nat, b: nat)
    ensures Pow2(a + b) == Pow2(a) * Pow2(b)
  {
    if a == 0 {
    } else {
      Pow2Add(a - 1, b);
      assert Pow2(a + b) == 2 * Pow2(a - 1 + b);
      MulAssoc(2, Pow2(a - 1), Pow2(b));
    }
  }

  lemma Pow2Monotone(a: nat, b: nat)
    requires a <= b
    ensures Pow2(a) <= Pow2(b)
    ensures Pow2(b) % Pow2(a) == 0
  {
    var p, q := Pow2(a), Pow2(b - a);
    Pow2Add(b - a, a);
    assert Pow2(b) == q * p;
    MulLe(1, q, p);
    DivModUnique(Pow2(b), p, q, 0);
  }

  lemma Pow2Eight(n: nat)
    ensures Pow2(n + 8) == 256 * Pow2(n)
  {
    Pow2Add(8, n);
    assert Pow2(8) == 256 by {
      assert Pow2(4) == 16;
      Pow2Add(4, 4);
    }
  }

  lemma MulAssoc(a: int, b: int, c: int)
    ensures (a * b) * c == a * (b * c)
  {}

  lemma MulSub(a: int, b: int, c: int)
    ensures (a - b) * c == a * c - b * c
  {}

  lemma MulLe(a: int, b: int, c: int)
    requires a <= b && 0 <= c
    ensures a * c <= b * c
  {
    assert 0 <= (b - a) * c;
    assert (b - a) * c == b * c - a * c;
  }

  /** The quotient and remainder are the only pair that reassembles x. */
  lemma DivModUnique(x: int, d: int, q: int, r: int)
    requires d > 0 && 0 <= r < d && x == q * d + r
    ensures x / d == q && x % d == r
  {
    var k := q - x / d;
    assert k * d == x % d - r by {
      assert x == d * (x / d) + x % d;
      assert k * d == q * d - (x / d) * d;
    }
    assert k <= 0 by {
      if k > 0 { MulLe(1, k, d); }
    }
    assert k >= 0 by {
      if k < 0 { MulLe(k, -1, d); }
    }
  }

  lemma DivMod(x: int, d: int)
    requires d > 0
    ensures x == (x / d) * d + x % d && 0 <= x % d < d
  {}

  /** Splitting a division by a product: first by b, then by a. */
  lemma DivModSplit(x: int, a: int, b: int)
    requires a > 0 && b > 0
    ensures a * b > 0
    ensures (x / b) / a == x / (a * b)
    ensures x % (a * b) == ((x / b) % a) * b + x % b
    ensures (x % (a * b)) % b == x % b
    ensures (x % (a * b)) / b == (x / b) % a
  {
    MulLe(1, a, b);
    var y := x / b;
    var q, s, r := y / a, y % a, x % b;
    DivMod(x, b);
    DivMod(y, a);
    assert x == q * (a * b) + (s * b + r) by {
      assert y * b == (q * a) * b + s * b;
      MulAssoc(q, a, b);
    }
    MulLe(0, s, b);
    MulLe(s, a - 1, b);
    assert (a - 1) * b == a * b - b;
    DivModUnique(x, a * b, q, s * b + r);
    DivModUnique(s * b + r, b, s, r);
  }

  /** Congruence is unchanged by whole multiples of the modulus. */
  lemma ModShift(x: int, k: int, d: int)
    requires d > 0
    ensures (x + k * d) % d == x % d
    ensures (x + k * d) / d == x / d + k
  {
    DivMod(x, d);
    assert x + k * d == (x / d + k) * d + x % d by {
      assert (x / d + k) * d == (x / d) * d + k * d;
    }
    DivModUnique(x + k * d, d, x / d + k, x % d);
  }

  /** Two congruent numbers that differ are at least one modulus apart. */
  lemma CongruentApart(x: int, y: int, d: int)
    requires d > 0 && x % d == y % d && x < y
    ensures x + d <= y
    ensures y == x + (y / d - x / d) * d
  {
    DivMod(x, d);
    DivMod(y, d);
    var k := y / d - x / d;
    assert k * d == (y / d) * d - (x / d) * d;
    assert k > 0 by {
      if k <= 0 { MulLe(k, 0, d); }
    }
    MulLe(1, k, d);
  }

  /** A remainder by a multiple of d still determines the remainder by d. */
  lemma ModOfMod(x: int, d: int, m: int)
    requires d > 0 && m > 0 && m % d == 0
    ensures (x % m) % d == x % d
  {
    var a := m / d;
    DivMod(m, d);
    assert m == a * d;
    assert a > 0 by {
      if a <= 0 { MulLe(a, 0, d); }
    }
    DivModSplit(x, a, d);
  }
}
