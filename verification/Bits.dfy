/** Masks and shifts on unsigned longs, bit by bit, and what csim.c's masks extract. */
module Bits {

  /** x << n, without truncation */
  function Shl(x: nat, n: nat): nat {
    if n == 0 then x else 2 * Shl(x, n - 1)
  }

  /** x >> n */
  function Shr(x: nat, n: nat): nat {
    if n == 0 then x else Shr(x / 2, n - 1)
  }

  function And(x: nat, y: nat): nat {
    if x == 0 || y == 0 then 0
    else 2 * And(x / 2, y / 2) + (if x % 2 == 1 && y % 2 == 1 then 1 else 0)
  }

  function Xor(x: nat, y: nat): nat
    decreases x + y
  {
    if x == 0 && y == 0 then 0
    else 2 * Xor(x / 2, y / 2) + (if x % 2 != y % 2 then 1 else 0)
  }

  function Pow2(n: nat): nat {
    Shl(1, n)
  }

  const ULONG_MAX := 0xffff_ffff_ffff_ffff

  // ----- the masks of cache_init -----

  function OffsetMask(b: nat): int {
    Pow2(b) - 1
  }

  function SetMask(s: nat, b: nat): int {
    PowPositive(b + s);
    PowPositive(b);
    Xor(Pow2(b + s) - 1, OffsetMask(b))
  }

  /** A subtraction of unsigned longs; MaskValues shows that it does not wrap. */
  function TagMask(s: nat, b: nat): int {
    ULONG_MAX - OffsetMask(b) - SetMask(s, b)
  }

  lemma {:induction false} PowPositive(n: nat)
    ensures Pow2(n) > 0
  {
    if n > 0 {
      PowPositive(n - 1);
    }
  }

  lemma {:induction false} ShlShl(x: nat, a: nat, b: nat)
    ensures Shl(Shl(x, a), b) == Shl(x, a + b)
  {
    if b > 0 {
      ShlShl(x, a, b - 1);
    }
  }

  lemma {:induction false} ShrShr(x: nat, a: nat, b: nat)
    ensures Shr(Shr(x, a), b) == Shr(x, a + b)
  {
    if a > 0 {
      ShrShr(x / 2, a - 1, b);
    }
  }

  lemma {:induction false} ShrShl(x: nat, n: nat)
    ensures Shr(Shl(x, n), n) == x
  {
    if n > 0 {
      assert Shl(x, n) / 2 == Shl(x, n - 1);
      ShrShl(x, n - 1);
    }
  }

  /** The low `n` bits. */
  function Low(x: nat, n: nat): nat {
    if n == 0 then 0 else 2 * Low(x / 2, n - 1) + x % 2
  }

  lemma {:induction false} HighLow(x: nat, n: nat)
    ensures x == Shl(Shr(x, n), n) + Low(x, n)
    ensures Low(x, n) < Pow2(n)
  {
    if n > 0 {
      HighLow(x / 2, n - 1);
      assert x == 2 * (x / 2) + x % 2;
    }
  }

  lemma {:induction false} LowSmall(x: nat, n: nat)
    requires x < Pow2(n)
    ensures Low(x, n) == x && Shr(x, n) == 0
  {
    if n > 0 {
      assert x / 2 < Pow2(n - 1);
      LowSmall(x / 2, n - 1);
    }
  }

  lemma {:induction false} ShrSmall(x: nat, k: nat, n: nat)
    requires x < Pow2(n + k)
    ensures Shr(x, k) < Pow2(n)
  {
    if k > 0 {
      assert x / 2 < Pow2(n + k - 1);
      ShrSmall(x / 2, k - 1, n);
    }
  }

  /** A mask of the n low bits keeps just those. */
  lemma {:induction false} AndLow(x: nat, n: nat)
    ensures Pow2(n) >= 1 && And(x, Pow2(n) - 1) == Low(x, n)
  {
    PowPositive(n);
    if n > 0 {
      PowPositive(n - 1);
      AndLow(x / 2, n - 1);
      var m := Pow2(n) - 1;
      assert m / 2 == Pow2(n - 1) - 1 && m % 2 == 1;
      if x == 0 {
        AndZero(Pow2(n - 1) - 1);
      }
    }
  }

  lemma AndZero(y: nat)
    ensures And(0, y) == 0
  {
  }

  /** A mask shifted up selects from the bits shifted down. */
  lemma {:induction false} AndHigh(x: nat, y: nat, k: nat)
    ensures And(x, Shl(y, k)) == Shl(And(Shr(x, k), y), k)
  {
    if k > 0 {
      AndHigh(x / 2, y, k - 1);
      var z := Shl(y, k - 1);
      assert (2 * z) / 2 == z && (2 * z) % 2 == 0;
      if x == 0 {
        AndZero(z);
      }
    }
  }

  lemma {:induction false} XorZero(x: nat)
    ensures Xor(x, 0) == x
  {
    if x > 0 {
      XorZero(x / 2);
    }
  }

  lemma {:induction false} XorLow(s: nat, b: nat)
    ensures Pow2(b + s) >= 1 && Pow2(b) >= 1 && Pow2(s) >= 1
    ensures Xor(Pow2(b + s) - 1, Pow2(b) - 1) == Shl(Pow2(s) - 1, b)
  {
    PowPositive(b + s);
    PowPositive(b);
    PowPositive(s);
    if b == 0 {
      XorZero(Pow2(s) - 1);
    } else {
      XorLow(s, b - 1);
      var x, y := Pow2(b - 1 + s) - 1, Pow2(b - 1) - 1;
      assert (2 * x + 1) / 2 == x && (2 * y + 1) / 2 == y;
      assert Pow2(b + s) - 1 == 2 * x + 1 && Pow2(b) - 1 == 2 * y + 1;
    }
  }

  lemma {:induction false} ShlOnes(n: nat, k: nat)
    ensures Pow2(n) >= 1 && Shl(Pow2(n) - 1, k) == Pow2(n + k) - Pow2(k)
  {
    PowPositive(n);
    if k > 0 {
      ShlOnes(n, k - 1);
    }
  }

  lemma Pow64()
    ensures Pow2(64) == ULONG_MAX + 1
  {
    assert Pow2(8) == 256;
    ShlShl(1, 8, 8);
    assert Shl(256, 8) == 65536;
    ShlShl(1, 16, 8);
    assert Shl(65536, 8) == 0x100_0000;
    ShlShl(1, 24, 8);
    assert Shl(0x100_0000, 8) == 0x1_0000_0000;
    ShlShl(1, 32, 8);
    assert Shl(0x1_0000_0000, 8) == 0x100_0000_0000;
    ShlShl(1, 40, 8);
    assert Shl(0x100_0000_0000, 8) == 0x1_0000_0000_0000;
    ShlShl(1, 48, 8);
    assert Shl(0x1_0000_0000_0000, 8) == 0x100_0000_0000_0000;
    ShlShl(1, 56, 8);
    assert Shl(0x100_0000_0000_0000, 8) == ULONG_MAX + 1;
  }

  /** The masks are runs of ones that do not meet, and the subtraction does not wrap. */
  lemma MaskValues(s: nat, b: nat)
    requires s + b < 64
    ensures Pow2(s) >= 1 && SetMask(s, b) == Shl(Pow2(s) - 1, b)
    ensures Pow2(64 - s - b) >= 1 && TagMask(s, b) == Shl(Pow2(64 - s - b) - 1, s + b)
  {
    XorLow(s, b);
    ShlOnes(s, b);
    ShlOnes(64 - s - b, s + b);
    Pow64();
  }

  // ----- get_tag and get_set -----

  function GetTag(addr: nat, s: nat, b: nat): nat
    requires s + b < 64
  {
    MaskValues(s, b);
    Shr(And(addr, TagMask(s, b)), s + b)
  }

  function GetSet(addr: nat, s: nat, b: nat): nat
    requires s + b < 64
  {
    Shr(And(addr, SetMask(s, b)), b)
  }

  /** The masks and shifts cut an address into tag, set and offset without loss. */
  lemma AddressParts(addr: nat, s: nat, b: nat)
    requires s + b < 64 && addr <= ULONG_MAX
    ensures GetSet(addr, s, b) < Pow2(s)
    ensures Shr(addr, b) == Shl(GetTag(addr, s, b), s) + GetSet(addr, s, b)
    ensures addr == Shl(Shl(GetTag(addr, s, b), s) + GetSet(addr, s, b), b) + Low(addr, b)
  {
    hide And, Shl, Shr, Low, Pow2, GetSet, GetTag;
    SetPart(addr, s, b);
    TagPart(addr, s, b);
    ShrShr(addr, b, s);
    HighLow(Shr(addr, b), s);
    HighLow(addr, b);
  }

  lemma SetPart(addr: nat, s: nat, b: nat)
    requires s + b < 64
    ensures GetSet(addr, s, b) == Low(Shr(addr, b), s)
  {
    hide And, Shl, Shr, Low, Pow2, OffsetMask, SetMask, TagMask;
    MaskValues(s, b);
    AndHigh(addr, Pow2(s) - 1, b);
    AndLow(Shr(addr, b), s);
    ShrShl(Low(Shr(addr, b), s), b);
  }

  lemma TagPart(addr: nat, s: nat, b: nat)
    requires s + b < 64 && addr <= ULONG_MAX
    ensures GetTag(addr, s, b) == Shr(addr, s + b)
  {
    hide And, Shl, Shr, Low, Pow2, OffsetMask, SetMask, TagMask;
    var y, n := Shr(addr, s + b), 64 - s - b;
    MaskValues(s, b);
    AndHigh(addr, Pow2(n) - 1, s + b);
    AndLow(y, n);
    ShrShl(Low(y, n), s + b);
    Pow64();
    ShrSmall(addr, s + b, n);
    LowSmall(y, n);
  }
}
