/** csapp.c's signal-safe number printing: sio_ltoa and sio_reverse. */
module Sio {
  import opened Bits
  import opened Sequences
  import A = Arithmetic

  /** C's `/` and `%`, which round toward zero. */
  function Quot(v: int, b: int): int
    requires b > 0
  {
    if v >= 0 then v / b else -((-v) / b)
  }

  function Rem(v: int, b: int): int
    requires b > 0
  {
    if v >= 0 then v % b else -((-v) % b)
  }

  /** What C promises of them: they undo the multiplication, and the remainder is smaller
      than the divisor and has the sign of the dividend. */
  lemma Truncated(v: int, b: int)
    requires b > 0
    ensures v == Quot(v, b) * b + Rem(v, b) && -b < Rem(v, b) < b
    ensures (v >= 0 ==> Rem(v, b) >= 0) && (v <= 0 ==> Rem(v, b) <= 0)
  {
    if v >= 0 {
      A.Division(v, b);
    } else {
      var q := (-v) / b;
      A.Division(-v, b);
      A.Distribute(b, 0, q);
      A.Distribute(b, -q, 0);
    }
  }

  /** And that fixes both. */
  lemma TruncatedIsUnique(v: int, b: int, q: int, r: int)
    requires b > 0 && v == q * b + r && -b < r < b && (v >= 0 ==> r >= 0) && (v <= 0 ==> r <= 0)
    ensures q == Quot(v, b) && r == Rem(v, b)
  {
    if v >= 0 {
      A.DivUnique(v, b, q, r);
    } else {
      A.Distribute(b, -q, 0);
      A.Distribute(b, 0, q);
      A.DivUnique(-v, b, -q, -r);
    }
  }

  /** What a negative number prints as: the character as far below '0' as its last digit. */
  lemma NegativePrints(v: int, b: int, d: int)
    requires v < 0 && b >= 2 && 0 <= d < b && exists q :: -v == q * b + d
    ensures Printed(v, b) == [48 - d]
  {
    var q :| -v == q * b + d;
    A.DivUnique(-v, b, q, d);
  }

  /** The character of a digit: '0'..'9', then 'a'... */
  function DigitChar(c: int): int {
    if c < 10 then c + 48 else c - 10 + 97
  }

  /** The digit a character stands for, -1 for none. */
  function CharDigit(ch: int): int {
    if 48 <= ch <= 57 then ch - 48 else if 97 <= ch <= 122 then ch - 97 + 10 else -1
  }

  /** A non-empty string of digits below `b`. */
  predicate IsNumeral(s: seq<int>, b: int) {
    s != [] && forall i :: 0 <= i < |s| ==> 0 <= CharDigit(s[i]) < b
  }

  const ALPHABET := "0123456789abcdefghijklmnopqrstuvwxyz"

  /** Digits are written in the usual alphabet, and read back from it only. */
  lemma DigitsInAlphabet(d: int, ch: char)
    ensures |ALPHABET| == 36
    ensures 0 <= d < 36 ==> DigitChar(d) == ALPHABET[d] as int
    ensures CharDigit(ch as int) == -1 <==> ch !in ALPHABET
  {
    var a := ALPHABET;
    assert forall i :: 0 <= i < 10 ==> a[i] as int == 48 + i;
    assert forall i :: 10 <= i < 36 ==> a[i] as int == 87 + i;
    if CharDigit(ch as int) != -1 {
      assert a[CharDigit(ch as int)] == ch;
    }
  }

  /** The number a numeral denotes, most significant digit first. */
  function Value(s: seq<int>, b: int): int {
    if s == [] then 0 else Value(s[..|s| - 1], b) * b + CharDigit(s[|s| - 1])
  }

  /** The digits of `v`, least significant first, as the loop of sio_ltoa produces them. */
  function Digits(v: nat, b: int): (s: seq<int>)
    requires b >= 2
    ensures s != []
    decreases v
  {
    [DigitChar(v % b)] + if v / b > 0 then QuotSmaller(v, b); Digits(v / b, b) else []
  }

  lemma QuotSmaller(v: nat, b: int)
    requires b >= 2 && v > 0
    ensures 0 <= v / b < v
  {
    A.TwiceQuotient(v, b);
  }

  /** What sio_ltoa leaves in the buffer before the NUL. */
  function Printed(v: int, b: int): seq<int>
    requires b >= 2
  {
    if v >= 0 then Reverse(Digits(v, b)) else [DigitChar(Rem(v, b))]
  }

  /** sio_strlen: the position of the first NUL. */
  ghost predicate Terminated(s: seq<int>, n: int) {
    0 <= n < |s| && s[n] == 0 && forall i :: 0 <= i < n ==> s[i] != 0
  }

  /** sio_reverse */
  method ReverseInPlace(s: array<int>, ghost len: int)
    requires Terminated(s[..], len)
    modifies s
    ensures s[..len] == Reverse(old(s[..len])) && s[len..] == old(s[len..])
  {
    var n := 0;
    while s[n] != 0
      invariant 0 <= n <= len
      decreases len - n
    {
      n := n + 1;
    }
    var i, j := 0, n - 1;
    while i < j
      invariant 0 <= i <= n && j == n - 1 - i
      invariant forall k :: 0 <= k < i || j < k < n ==> s[k] == old(s[n - 1 - k])
      invariant forall k :: i <= k <= j || n <= k < s.Length ==> s[k] == old(s[k])
    {
      var c := s[i];
      s[i] := s[j];
      s[j] := c;
      i, j := i + 1, j - 1;
    }
  }

  /** Mid-way through sio_ltoa: `got` is stored and `w` is still to be printed. */
  ghost predicate Produced(v: int, b: int, got: seq<int>, w: int)
    requires b >= 2
  {
    if v >= 0 then w >= 0 && got + (if w > 0 then Digits(w, b) else []) == Digits(v, b)
    else w <= 0 && got == Printed(v, b)
  }

  lemma FirstDigit(v: int, b: int)
    requires 2 <= b <= 36
    ensures Produced(v, b, [DigitChar(Rem(v, b))], Quot(v, b))
    ensures DigitChar(Rem(v, b)) != 0
  {
    hide Digits, Reverse;
    if v < 0 {
      NegativeQuot(-v, b);
    } else {
      FirstOfDigits(v, b);
    }
  }

  lemma FirstOfDigits(v: int, b: int)
    requires b >= 2 && v >= 0
    ensures Digits(v, b) == [DigitChar(v % b)] + if v / b > 0 then Digits(v / b, b) else []
    ensures 0 <= v % b < b && v / b >= 0
  {
    A.Division(v, b);
    A.QuotientSign(v, b);
  }

  lemma NegativeQuot(x: int, b: int)
    requires x > 0 && b >= 2
    ensures x / b >= 0 && 0 <= x % b < b
  {
  }

  lemma NextDigit(v: int, b: int, got: seq<int>, w: int)
    requires 2 <= b <= 36 && Produced(v, b, got, w) && w > 0
    ensures Produced(v, b, got + [DigitChar(Rem(w, b))], Quot(w, b))
    ensures DigitChar(Rem(w, b)) != 0 && 0 <= Quot(w, b) < w
    ensures |got| < |Printed(v, b)|
  {
    QuotSmaller(w, b);
    var rest := if w / b > 0 then Digits(w / b, b) else [];
    assert Digits(w, b) == [DigitChar(w % b)] + rest;
    assert got + ([DigitChar(w % b)] + rest) == (got + [DigitChar(w % b)]) + rest;
  }

  lemma LastDigit(v: int, b: int, got: seq<int>, w: int)
    requires 2 <= b && Produced(v, b, got, w) && w <= 0
    ensures Reverse(got) == Printed(v, b)
  {
    if v >= 0 {
      assert got + [] == got;
    }
  }

  lemma PrintedSize(v: int, b: int)
    requires b >= 2
    ensures |Printed(v, b)| >= 1
  {
  }

  /** sio_ltoa */
  method Ltoa(v: int, s: array<int>, b: int) returns (ghost len: int)
    requires 2 <= b <= 36
    requires |Printed(v, b)| < s.Length
    modifies s
    ensures Terminated(s[..], len) && s[..len] == Printed(v, b)
  {
    hide *;
    PrintedSize(v, b);
    FirstDigit(v, b);
    var w, i := v, 0;
    s[i] := DigitChar(Rem(w, b));
    i, w := i + 1, Quot(w, b);
    assert s[..1] == [DigitChar(Rem(v, b))];
    while w > 0
      invariant 0 < i <= |Printed(v, b)| && Produced(v, b, s[..i], w)
      invariant forall k :: 0 <= k < i ==> s[k] != 0
      decreases w
    {
      ghost var done := s[..i];
      NextDigit(v, b, done, w);
      s[i] := DigitChar(Rem(w, b));
      assert s[..i] == done && s[..i + 1] == done + [DigitChar(Rem(w, b))];
      i, w := i + 1, Quot(w, b);
    }
    ghost var got := s[..i];
    LastDigit(v, b, got, w);
    s[i] := 0;
    assert s[..i] == got;
    len := i;
    FoldTerminated(s[..], i);
    ReverseInPlace(s, i);
    ReversedTerminated(got, s[..], i);
  }

  lemma FoldTerminated(s: seq<int>, n: int)
    requires 0 <= n < |s| && s[n] == 0 && forall i :: 0 <= i < n ==> s[i] != 0
    ensures Terminated(s, n)
  {
  }

  lemma ReversedTerminated(got: seq<int>, s: seq<int>, n: int)
    requires n == |got| < |s| && s[..n] == Reverse(got) && s[n..][0] == 0
    requires forall i :: 0 <= i < n ==> got[i] != 0
    ensures Terminated(s, n)
  {
    forall i | 0 <= i < n
      ensures s[i] != 0
    {
      assert s[i] == s[..n][i];
    }
  }

  // ----- what is printed -----

  lemma DigitsAreDigits(v: nat, b: int, i: int)
    requires 2 <= b <= 36 && 0 <= i < |Digits(v, b)|
    ensures 0 <= CharDigit(Digits(v, b)[i]) < b
    ensures i == |Digits(v, b)| - 1 && |Digits(v, b)| > 1 ==> CharDigit(Digits(v, b)[i]) > 0
    decreases v
  {
    if v / b > 0 {
      QuotSmaller(v, b);
      if i > 0 {
        DigitsAreDigits(v / b, b, i - 1);
      }
    }
  }

  lemma ValueAppend(s: seq<int>, ch: int, b: int)
    ensures Value(s + [ch], b) == Value(s, b) * b + CharDigit(ch)
  {
    assert (s + [ch])[..|s|] == s;
  }

  lemma DigitsStep(v: nat, b: int)
    requires b >= 2
    ensures v / b > 0 ==> Digits(v, b) == [DigitChar(v % b)] + Digits(v / b, b)
    ensures v / b > 0 ==> Reverse(Digits(v, b)) == Reverse(Digits(v / b, b)) + [DigitChar(v % b)]
    ensures v / b == 0 ==> Digits(v, b) == [DigitChar(v % b)] && Reverse(Digits(v, b)) == [DigitChar(v % b)]
  {
    if v / b > 0 {
      assert Digits(v, b)[1..] == Digits(v / b, b);
    } else {
      assert Digits(v, b)[1..] == [];
    }
  }

  lemma CharOfDigit(d: int)
    requires 0 <= d < 36
    ensures CharDigit(DigitChar(d)) == d
  {
  }

  lemma DigitOfChar(ch: int)
    ensures CharDigit(ch) >= 0 ==> DigitChar(CharDigit(ch)) == ch
  {
  }

  lemma {:induction false} ValueOfDigits(v: nat, b: int)
    requires 2 <= b <= 36
    ensures Value(Reverse(Digits(v, b)), b) == v
    decreases v
  {
    hide Digits, Reverse, Value, DigitChar, CharDigit;
    A.Division(v, b);
    ValueStep(v, b);
    if v / b > 0 {
      QuotSmaller(v, b);
      ValueOfDigits(v / b, b);
    } else {
      SmallQuotient(v, b);
    }
  }

  lemma ValueStep(v: nat, b: int)
    requires 2 <= b <= 36 && 0 <= v % b < b
    ensures v / b > 0 ==> Value(Reverse(Digits(v, b)), b) == Value(Reverse(Digits(v / b, b)), b) * b + v % b
    ensures v / b == 0 ==> Value(Reverse(Digits(v, b)), b) == v % b
  {
    hide Digits, Reverse, Value, DigitChar, CharDigit;
    CharOfDigit(v % b);
    DigitsStep(v, b);
    if v / b > 0 {
      ValueAppend(Reverse(Digits(v / b, b)), DigitChar(v % b), b);
    } else {
      ValueSingle(DigitChar(v % b), b);
    }
  }

  lemma ValueSingle(ch: int, b: int)
    ensures Value([ch], b) == CharDigit(ch)
  {
    assert [ch][..0] == [];
  }

  lemma SmallQuotient(v: nat, b: int)
    requires b >= 2 && v / b == 0
    ensures v % b == v
  {
  }

  /** A numeral without a leading zero. */
  predicate Canonical(s: seq<int>, b: int) {
    IsNumeral(s, b) && (|s| > 1 ==> CharDigit(s[0]) > 0)
  }

  /** For v >= 0 the printed string is the numeral of `v` in base `b`, without leading zero. */
  lemma PrintedIsNumeral(v: nat, b: int)
    requires 2 <= b <= 36
    ensures Canonical(Printed(v, b), b) && Value(Printed(v, b), b) == v
  {
    hide Digits, Value, CharDigit;
    var ds := Digits(v, b);
    forall i | 0 <= i < |ds|
      ensures 0 <= CharDigit(Reverse(ds)[i]) < b
      ensures i == 0 && |ds| > 1 ==> CharDigit(Reverse(ds)[i]) > 0
    {
      DigitsAreDigits(v, b, |ds| - 1 - i);
    }
    ValueOfDigits(v, b);
  }

  /** The printed string denotes its argument exactly when that is not negative. */
  lemma PrintsValueIff(v: int, b: int)
    requires 2 <= b <= 36
    ensures IsNumeral(Printed(v, b), b) && Value(Printed(v, b), b) == v <==> v >= 0
  {
    if v >= 0 {
      PrintedIsNumeral(v, b);
    } else {
      ValueAppend([], Printed(v, b)[0], b);
      assert Printed(v, b) == [] + [Printed(v, b)[0]];
    }
  }

  lemma {:induction false} ValuePositive(s: seq<int>, b: int)
    requires b >= 2 && Canonical(s, b)
    ensures Value(s, b) >= 0
    ensures |s| > 1 || CharDigit(s[0]) > 0 ==> Value(s, b) > 0
  {
    var init := s[..|s| - 1];
    if |s| > 1 {
      assert CharDigit(init[0]) > 0;
      ValuePositive(init, b);
      assert Value(init, b) * b > 0;
    } else {
      assert init == [];
    }
  }

  /** The most significant digit comes first. */
  lemma PrintsInOrder()
    ensures Printed(120, 10) == ['1' as int, '2' as int, '0' as int] && Printed(255, 16) == ['f' as int, 'f' as int]
    ensures Printed(0, 10) == ['0' as int]
  {
    hide Digits, Reverse;
    FirstOfDigits(120, 10);
    FirstOfDigits(12, 10);
    FirstOfDigits(1, 10);
    FirstOfDigits(255, 16);
    FirstOfDigits(15, 16);
    FirstOfDigits(0, 10);
  }

  /** Conversely every numeral without leading zero is what its value prints as. */
  lemma {:induction false} PrintedOfValue(s: seq<int>, b: int)
    requires 2 <= b <= 36 && Canonical(s, b)
    ensures Value(s, b) >= 0 && Printed(Value(s, b), b) == s
  {
    hide Digits, Reverse, Value, DigitChar, CharDigit;
    var init, d := s[..|s| - 1], CharDigit(s[|s| - 1]);
    assert s == init + [s[|s| - 1]];
    ValuePositive(s, b);
    ValueAppend(init, s[|s| - 1], b);
    DigitOfChar(s[|s| - 1]);
    if |s| > 1 {
      ValuePositive(init, b);
      PrintedOfValue(init, b);
      A.DivUnique(Value(s, b), b, Value(init, b), d);
      DigitsStep(Value(s, b), b);
    } else {
      ValueSingle(s[0], b);
      A.DivUnique(d, b, 0, d);
      DigitsStep(d, b);
    }
  }

  /** A number below 2^n has at most n digits in any base. */
  lemma {:induction false} DigitCount(v: nat, b: int, n: nat)
    requires b >= 2 && n >= 1 && v < Pow2(n)
    ensures |Digits(v, b)| <= n
    decreases v
  {
    if v / b > 0 {
      QuotSmaller(v, b);
      HalfOrLess(v, b);
      assert v / 2 < Pow2(n - 1);
      DigitCount(v / b, b, n - 1);
    }
  }

  lemma HalfOrLess(v: nat, b: int)
    requires b >= 2
    ensures v / b <= v / 2
  {
    A.TwiceQuotient(v, b);
  }

  /** The 128 bytes of sio_putl hold every long. */
  lemma LongFits(v: int)
    requires -0x8000_0000_0000_0000 <= v <= 0x7fff_ffff_ffff_ffff
    ensures |Printed(v, 10)| < 128
  {
    if v >= 0 {
      Pow64();
      DigitCount(v, 10, 64);
    }
  }
}
