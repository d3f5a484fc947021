/** Remainders of small multiples, kept apart from the heap so the solver sees nothing else. */
module Arithmetic {

  lemma Rem8(q: int, r: int)
    requires 0 <= r < 8
    ensures (8 * q + r) % 8 == r
  {
  }

  lemma Rem2(q: int)
    ensures (8 * q) % 2 == 0 && (8 * q + 1) % 2 == 1
  {
    assert 8 * q == 2 * (4 * q);
  }

  lemma Rem4(q: int)
    ensures (8 * q) % 4 == 0 && (8 * q - 4) % 4 == 0 && (8 * q + 4) % 4 == 0 && (8 * q - 8) % 4 == 0
  {
    assert 8 * q == 4 * (2 * q);
  }

  /** Sums and differences of multiples of 8. */
  lemma Multiples(a: int, b: int)
    requires a % 8 == 0 && b % 8 == 0
    ensures (a + b) % 8 == 0 && (a - b) % 8 == 0 && (a + b - 8) % 8 == 0
  {
    assert a == 8 * (a / 8) && b == 8 * (b / 8);
    Rem8(a / 8 + b / 8, 0);
    Rem8(a / 8 - b / 8, 0);
    Rem8(a / 8 + b / 8 - 1, 0);
  }

  /** The digits of a number in base 256 are unique. */
  lemma Digits(a: int, b: int, c: int, d: int, a': int, b': int, c': int, d': int)
    requires 0 <= a < 256 && 0 <= b < 256 && 0 <= c < 256 && 0 <= d < 256
    requires 0 <= a' < 256 && 0 <= b' < 256 && 0 <= c' < 256 && 0 <= d' < 256
    requires a + 256 * b + 65536 * c + 16777216 * d == a' + 256 * b' + 65536 * c' + 16777216 * d'
    ensures a == a' && b == b' && c == c' && d == d'
  {
    assert a - a' == 256 * ((b' - b) + 256 * (c' - c) + 65536 * (d' - d));
    assert b - b' == 256 * ((c' - c) + 256 * (d' - d));
    assert c - c' == 256 * (d' - d);
  }

  lemma DigitsOf(v: int)
    requires 0 <= v < 0x1_0000_0000
    ensures v % 256 + 256 * (v / 256 % 256) + 65536 * (v / 65536 % 256) + 16777216 * (v / 16777216) == v
    ensures 0 <= v / 16777216 < 256
  {
    var v1 := v / 256;
    var v2 := v1 / 256;
    assert v / 65536 == v2;
    assert v / 16777216 == v2 / 256;
  }

  /** Slots of width `w` numbered x < y do not overlap. */
  lemma {:induction false} SlotsApart(x: int, y: int, w: nat)
    requires 0 <= x < y
    ensures 0 <= x * w && x * w + w <= y * w
  {
    if x + 1 < y {
      SlotsApart(x, y - 1, w);
    }
    assert y * w == (y - 1) * w + w;
  }

  lemma {:induction false} MulAtLeast(b: int, k: int)
    requires b >= 0 && k >= 1
    ensures b * k >= b
  {
    if k > 1 {
      MulAtLeast(b, k - 1);
      assert b * k == b * (k - 1) + b;
    }
  }

  lemma Distribute(b: int, x: int, y: int)
    ensures x * b - y * b == b * (x - y)
  {
  }

  /** Quotient and remainder are unique. */
  lemma DivUnique(v: int, b: int, x: int, d: int)
    requires 0 <= d < b && v == x * b + d
    ensures v / b == x && v % b == d
  {
    var q, r := v / b, v % b;
    Division(v, b);
    Distribute(b, q, x);
    Distribute(b, x, q);
    if q > x {
      MulAtLeast(b, q - x);
    }
    if q < x {
      MulAtLeast(b, x - q);
    }
  }

  lemma TwiceQuotient(v: nat, b: int)
    requires b >= 2
    ensures 0 <= v / b && 2 * (v / b) <= v
  {
    var q := v / b;
    Division(v, b);
    QuotientSign(v, b);
    if q > 0 {
      MulAtLeast(q, b - 1);
      Distribute(q, b, 1);
    }
  }

  lemma QuotientSign(v: nat, b: int)
    requires b > 0
    ensures v / b >= 0
  {
  }

  lemma Division(v: int, b: int)
    requires b > 0
    ensures v == (v / b) * b + v % b && 0 <= v % b < b
  {
  }
}
