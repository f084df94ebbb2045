/** Positional notation: the digits of a number and the number of a digit string. */
module Digits {

  /** The two number bases of the printers and readers. */
  type radix = b: nat | b == 10 || b == 16 witness 10

  /** C division rounds toward zero, and the remainder takes the sign of the dividend. */
  function TruncDiv(a: int, b: radix): int {
    if a >= 0 then a / b else -((-a) / b)
  }

  function TruncMod(a: int, b: radix): int {
    if a >= 0 then a % b else -((-a) % b)
  }

  function Abs(a: int): nat {
    if a >= 0 then a else -a
  }

  lemma TruncParts(a: int, b: radix)
    ensures TruncDiv(a, b) * b + TruncMod(a, b) == a
    ensures a != 0 ==> Abs(TruncDiv(a, b)) < Abs(a)
    ensures 0 <= Abs(TruncMod(a, b)) < b
    ensures a >= 0 ==> TruncDiv(a, b) >= 0 && TruncMod(a, b) >= 0
  {
    if b == 10 {
      assert Abs(a) == 10 * (Abs(a) / 10) + Abs(a) % 10;
    } else {
      assert Abs(a) == 16 * (Abs(a) / 16) + Abs(a) % 16;
    }
  }

  /** Digits from the lowest up; none for 0. Those of a negative number are negative. */
  function LowDigits(v: int, b: radix): seq<int>
    decreases Abs(v)
  {
    TruncParts(v, b);
    if v == 0 then [] else [TruncMod(v, b)] + LowDigits(TruncDiv(v, b), b)
  }

  function Reversed<T>(s: seq<T>): (r: seq<T>)
    ensures |r| == |s|
  {
    if s == [] then [] else Reversed(s[1..]) + [s[0]]
  }

  lemma {:induction false} ReversedAt<T>(s: seq<T>, k: nat)
    requires k < |s|
    ensures Reversed(s)[k] == s[|s| - 1 - k]
  {
    if k < |s| - 1 {
      ReversedAt(s[1..], k);
    }
  }

  /** Digits from the highest down, as they are printed. */
  function Numeral(v: int, b: radix): seq<int> {
    Reversed(LowDigits(v, b))
  }

  /** The number a digit string stands for. */
  function Value(ds: seq<int>, b: radix): int {
    if ds == [] then 0 else Value(ds[..|ds| - 1], b) * b + ds[|ds| - 1]
  }

  lemma ValueSnoc(ds: seq<int>, d: int, b: radix)
    ensures Value(ds + [d], b) == Value(ds, b) * b + d
  {
    assert (ds + [d])[..|ds|] == ds;
  }

  /** Reading back the digits of a number gives the number. */
  lemma {:induction false} ValueOfNumeral(v: int, b: radix)
    ensures Value(Numeral(v, b), b) == v
    decreases Abs(v)
  {
    TruncParts(v, b);
    if v != 0 {
      ValueOfNumeral(TruncDiv(v, b), b);
      ValueSnoc(Numeral(TruncDiv(v, b), b), TruncMod(v, b), b);
    }
  }

  lemma {:induction false} LowDigitsInRange(v: int, b: radix, k: nat)
    requires k < |LowDigits(v, b)|
    ensures Abs(LowDigits(v, b)[k]) < b && (v >= 0 ==> LowDigits(v, b)[k] >= 0)
    decreases k
  {
    TruncParts(v, b);
    if k > 0 {
      LowDigitsInRange(TruncDiv(v, b), b, k - 1);
    }
  }

  lemma NumeralDigits(v: int, b: radix)
    ensures forall k | 0 <= k < |LowDigits(v, b)| ::
              Abs(LowDigits(v, b)[k]) < b && (v >= 0 ==> LowDigits(v, b)[k] >= 0)
    ensures forall k | 0 <= k < |Numeral(v, b)| ::
              Abs(Numeral(v, b)[k]) < b && (v >= 0 ==> Numeral(v, b)[k] >= 0)
  {
    var low := LowDigits(v, b);
    forall k | 0 <= k < |low|
      ensures Abs(low[k]) < b && (v >= 0 ==> low[k] >= 0)
    {
      LowDigitsInRange(v, b, k);
    }
    forall k | 0 <= k < |Numeral(v, b)|
      ensures Numeral(v, b)[k] == low[|low| - 1 - k]
    {
      ReversedAt(low, k);
    }
  }

  function Power(b: radix, n: nat): nat {
    if n == 0 then 1 else b * Power(b, n - 1)
  }

  lemma {:induction false} NumeralLength(v: int, b: radix, n: nat)
    requires Abs(v) < Power(b, n)
    ensures |LowDigits(v, b)| <= n && |Numeral(v, b)| <= n
    decreases n
  {
    TruncParts(v, b);
    if v != 0 && n > 0 {
      var q := TruncDiv(v, b);
      if b == 10 {
        assert Abs(q) < Power(b, n - 1);
      } else {
        assert Abs(q) < Power(b, n - 1);
      }
      NumeralLength(q, b, n - 1);
    }
  }

  /** The first printed digit of a nonzero number is not 0. */
  lemma {:induction false} NoLeadingZero(v: int, b: radix)
    requires v != 0
    ensures |LowDigits(v, b)| > 0 && LowDigits(v, b)[|LowDigits(v, b)| - 1] != 0
    ensures |Numeral(v, b)| > 0 && Numeral(v, b)[0] != 0
    decreases Abs(v)
  {
    TruncParts(v, b);
    var q := TruncDiv(v, b);
    if q != 0 {
      NoLeadingZero(q, b);
    }
    ReversedAt(LowDigits(v, b), 0);
  }

  // ---------------------------------------------------------------------------
  // 64-bit words
  // ---------------------------------------------------------------------------

  const TWO63: nat := 0x8000_0000_0000_0000
  const TWO64: nat := 0x1_0000_0000_0000_0000

  type uint64 = x: nat | x < 0x1_0000_0000_0000_0000
  type int64 = x: int | -0x8000_0000_0000_0000 <= x < 0x8000_0000_0000_0000

  function Word(x: int): uint64 {
    x % TWO64
  }

  /** Two's complement reading of the low 64 bits. */
  function Signed(x: int): int64 {
    (x + TWO63) % TWO64 - TWO63
  }

  /** They are the only 64-bit numbers, without and with sign, that differ from x by a multiple of 2^64. */
  lemma WordsAre(x: int, w: uint64, s: int64)
    ensures w == Word(x) <==> (x - w) % 0x1_0000_0000_0000_0000 == 0
    ensures s == Signed(x) <==> (x - s) % 0x1_0000_0000_0000_0000 == 0
  {
    SameRest(x, w, Word(x), x / TWO64);
    SameRest(x, s, Signed(x), (x + TWO63) / TWO64);
  }

  lemma SameRest(x: int, y: int, z: int, k: int)
    requires x == z + k * TWO64 && y - z < TWO64 && z - y < TWO64
    ensures y == z <==> (x - y) % TWO64 == 0
  {}

  lemma WordOfSmall(x: int64)
    ensures Word(x) == if x < 0 then x + TWO64 else x
  {}

  lemma WordSucc(n: nat)
    ensures Word(Word(n) + 1) == Word(n + 1)
  {}

  lemma WordUnique(x: int, y: int, k: int)
    requires x == y + k * TWO64
    ensures Word(x) == Word(y) && Signed(x) == Signed(y)
  {
    assert x % TWO64 == y % TWO64;
    assert (x + TWO63) % TWO64 == (y + TWO63) % TWO64;
  }

  /** Wrapping before a step of reading changes nothing after it. */
  lemma WrapStep(x: int, b: radix, d: int)
    ensures Word(Word(x) * b + d) == Word(x * b + d)
    ensures Signed(Signed(x) * b + d) == Signed(x * b + d)
  {
    var k := x / TWO64;
    assert x == Word(x) + k * TWO64;
    assert x * b + d == (Word(x) * b + d) + (k * b) * TWO64;
    WordUnique(x * b + d, Word(x) * b + d, k * b);
    var m := (x + TWO63) / TWO64;
    assert x == Signed(x) + m * TWO64;
    assert x * b + d == (Signed(x) * b + d) + (m * b) * TWO64;
    WordUnique(x * b + d, Signed(x) * b + d, m * b);
  }

  lemma SixtyFourBitLengths(v: int)
    ensures Abs(v) < TWO64 ==> |Numeral(v, 10)| <= 20 && |Numeral(v, 16)| <= 16
    ensures Abs(v) <= TWO63 ==> |Numeral(v, 10)| <= 19
  {
    assert Power(10, 10) == 10_000_000_000;
    assert Power(10, 15) == 1_000_000_000_000_000;
    assert Power(10, 19) == 10_000_000_000_000_000_000;
    assert Power(10, 20) == 100_000_000_000_000_000_000;
    assert Power(16, 8) == 0x1_0000_0000;
    assert Power(16, 12) == 0x1_0000_0000_0000;
    assert Power(16, 16) == TWO64;
    if Abs(v) < TWO64 {
      NumeralLength(v, 10, 20);
      NumeralLength(v, 16, 16);
    }
    if Abs(v) <= TWO63 {
      NumeralLength(v, 10, 19);
    }
  }
}
