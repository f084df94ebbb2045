/** Number formatting and parsing of the kernel (`Kernel/src/cstr.cpp`). Signed 64-bit
    arithmetic wraps around, as it does in the kernel's unoptimised build. */
module KernelStrings {
  import opened Digits

  /** A `char`, which is signed on this target. */
  type char8 = c: int | -128 <= c < 128

  const ZERO: char8 := 0x30
  const MINUS: char8 := 0x2D
  const PERCENT: char8 := 0x25
  const SMALL_X: char8 := 0x78
  const BIG_X: char8 := 0x58

  // ---------------------------------------------------------------------------
  // The texts of numbers
  // ---------------------------------------------------------------------------

  function DecimalChar(d: int): char8 {
    if -10 < d < 10 then d + 0x30 else 0
  }

  function DecimalChars(ds: seq<int>): (t: seq<char8>)
    ensures |t| == |ds|
  {
    seq(|ds|, i requires 0 <= i < |ds| => DecimalChar(ds[i]))
  }

  /** Negation as `num *= -1` does it. */
  function Negated(n: int): int64 {
    Signed(-n)
  }

  /** `_ToStr`. The magnitude of INT64_MIN wraps back to INT64_MIN. */
  function DecimalText(n: int64): seq<char8> {
    if n == 0 then [ZERO]
    else if n < 0 then [MINUS] + DecimalChars(Numeral(Negated(n), 10))
    else DecimalChars(Numeral(n, 10))
  }

  function HexChar(d: int): char8 {
    if 0 <= d < 10 then d + 0x30 else if 10 <= d < 16 then d + 0x37 else 0
  }

  function HexChars(ds: seq<int>): (t: seq<char8>)
    ensures |t| == |ds|
  {
    seq(|ds|, i requires 0 <= i < |ds| => HexChar(ds[i]))
  }

  /** The digits `_ToHex` prints: at least two. */
  function HexDigits(n: uint64): seq<int> {
    if n == 0 then [0, 0] else if n < 0x10 then [0, n] else Numeral(n, 16)
  }

  function HexText(n: uint64): seq<char8> {
    [ZERO, SMALL_X] + HexChars(HexDigits(n))
  }

  /** `ToString`. */
  function NumberText(n: int64, hex: bool): seq<char8> {
    if hex then HexText(Word(n)) else DecimalText(n)
  }

  lemma NumberTextBounds(n: int64, hex: bool)
    ensures 0 < |NumberText(n, hex)| <= 20
    ensures forall i | 0 <= i < |NumberText(n, hex)| :: NumberText(n, hex)[i] != 0
  {
    if hex {
      var u := Word(n);
      SixtyFourBitLengths(u);
      NumeralDigits(u, 16);
    } else if n != 0 {
      var m := if n < 0 then Negated(n) else n;
      SixtyFourBitLengths(m);
      NumeralDigits(m, 10);
      NoLeadingZero(m, 10);
    }
  }

  const INT64_MIN: int := -0x8000_0000_0000_0000

  predicate OnlyDigits(t: seq<char8>) {
    forall i | 0 <= i < |t| :: 0x30 <= t[i] <= 0x39
  }

  /** What follows the sign is a plain numeral except for INT64_MIN, whose digits come out as
      characters below '0'. */
  lemma DecimalTextIsPlainIff(n: int64)
    ensures OnlyDigits(DecimalText(n)[if n < 0 then 1 else 0..]) <==> n != INT64_MIN
  {
    if n == 0 {
      assert DecimalText(n)[0..] == [ZERO];
    } else if n < 0 {
      NegatedNegative(n);
      PlainIffPositive(Negated(n));
      assert DecimalText(n)[1..] == DecimalChars(Numeral(Negated(n), 10));
    } else {
      PlainIffPositive(n);
      assert DecimalText(n)[0..] == DecimalChars(Numeral(n, 10));
    }
  }

  lemma NegatedNegative(n: int64)
    requires n < 0
    ensures Negated(n) == if n == INT64_MIN then n else -(n as int)
  {}

  lemma PlainIffPositive(m: int)
    requires m != 0
    ensures OnlyDigits(DecimalChars(Numeral(m, 10))) <==> m > 0
  {
    var ds := Numeral(m, 10);
    NumeralDigits(m, 10);
    if m < 0 {
      NegativeDigits(m);
      NoLeadingZero(m, 10);
      assert DecimalChars(ds)[0] < 0x30;
    }
  }

  lemma {:induction false} NegativeDigits(m: int)
    requires m <= 0
    ensures forall k | 0 <= k < |LowDigits(m, 10)| :: LowDigits(m, 10)[k] <= 0
    ensures forall k | 0 <= k < |Numeral(m, 10)| :: Numeral(m, 10)[k] <= 0
    decreases -m
  {
    TruncParts(m, 10);
    if m != 0 {
      NegativeDigits(TruncDiv(m, 10));
    }
    forall k | 0 <= k < |Numeral(m, 10)|
      ensures Numeral(m, 10)[k] <= 0
    {
      ReversedAt(LowDigits(m, 10), k);
      assert Numeral(m, 10)[k] == LowDigits(m, 10)[|LowDigits(m, 10)| - 1 - k];
    }
  }

  /** Decimal texts by their characters: one digit after the other behind a sign. */
  lemma DecimalTextIs(n: int64)
    ensures 0 <= n < 10 ==> DecimalText(n) == [0x30 + n]
    ensures n >= 10 ==> DecimalText(n) == DecimalText(n / 10) + [0x30 + n % 10]
    ensures n < 0 && n != INT64_MIN ==> DecimalText(n) == [0x2D] + DecimalText(-n)
  {
    if n < 0 {
      NegatedNegative(n);
    } else if n > 0 {
      assert LowDigits(n, 10) == [n % 10] + LowDigits(n / 10, 10);
      assert Numeral(n, 10) == Numeral(n / 10, 10) + [n % 10];
      assert n < 10 ==> Numeral(n / 10, 10) == [];
    }
  }

  /** The text of INT64_MIN: its digits are below '0' by what they should be above it. */
  lemma LeastNumber()
    ensures var t, digits := DecimalText(-0x8000_0000_0000_0000), DecimalText(922337203685477580);
            && |t| == |digits| + 2 && t[0] == 0x2D && t[|t| - 1] == 0x28
            && forall i | 0 <= i < |digits| :: t[i + 1] == 0x60 - digits[i]
  {
    var k := 922337203685477580;
    NegatedNegative(-0x8000_0000_0000_0000);
    LeastNumeral();
    NegativeNumeral(k);
    NumeralDigits(k, 10);
    assert DecimalText(k) == DecimalChars(Numeral(k, 10));
    hide Numeral, Negated;
    assert DecimalText(-0x8000_0000_0000_0000) == [0x2D] + DecimalChars(Numeral(-k, 10) + [-8]);
  }

  lemma LeastNumeral()
    ensures Numeral(-0x8000_0000_0000_0000, 10) == Numeral(-922337203685477580, 10) + [-8]
  {
    assert LowDigits(-0x8000_0000_0000_0000, 10) == [-8] + LowDigits(-922337203685477580, 10);
  }

  lemma NegativeNumeral(k: int)
    requires k >= 0
    ensures |Numeral(-k, 10)| == |Numeral(k, 10)|
    ensures forall i | 0 <= i < |Numeral(k, 10)| :: Numeral(-k, 10)[i] == -Numeral(k, 10)[i]
  {
    NegativeLowDigits(k);
    forall i | 0 <= i < |Numeral(k, 10)|
      ensures Numeral(-k, 10)[i] == -Numeral(k, 10)[i]
    {
      ReversedAt(LowDigits(-k, 10), i);
      ReversedAt(LowDigits(k, 10), i);
    }
  }

  lemma {:induction false} NegativeLowDigits(k: int)
    requires k >= 0
    ensures |LowDigits(-k, 10)| == |LowDigits(k, 10)|
    ensures forall i | 0 <= i < |LowDigits(k, 10)| :: LowDigits(-k, 10)[i] == -LowDigits(k, 10)[i]
  {
    if k > 0 {
      NegativeLowDigits(k / 10);
    }
  }

  /** A decimal text of several digits does not start with 0 behind its sign. */
  lemma NoZeroInFront(n: int64)
    ensures var digits := DecimalText(n)[if n < 0 then 1 else 0..];
            |digits| > 0 && (|digits| > 1 ==> digits[0] != 0x30)
  {
    if n != 0 {
      var m := if n < 0 then Negated(n) else n;
      NumeralDigits(m, 10);
      NoLeadingZero(m, 10);
      assert DecimalText(n)[if n < 0 then 1 else 0..] == DecimalChars(Numeral(m, 10));
    }
  }

  /** A hexadecimal digit by its code. */
  function HexCode(d: nat): char8
    requires d < 16
  {
    [0x30, 0x31, 0x32, 0x33, 0x34, 0x35, 0x36, 0x37, 0x38, 0x39, 0x41, 0x42, 0x43, 0x44, 0x45, 0x46][d]
  }

  /** Hexadecimal texts by their characters: at least two digits behind "0x". */
  lemma HexTextIs(n: uint64)
    ensures n < 0x100 ==> HexText(n) == [0x30, 0x78, HexCode(n / 16), HexCode(n % 16)]
    ensures n >= 0x100 ==> HexText(n) == HexText(n / 16) + [HexCode(n % 16)]
  {
    if n >= 0x100 {
      MoreHexDigits(n);
    } else {
      TwoHexDigits(n);
    }
  }

  lemma TwoHexDigits(n: nat)
    requires n < 0x100
    ensures HexText(n) == [0x30, 0x78, HexCode(n / 16), HexCode(n % 16)]
  {
    var ds := [n / 16, n % 16];
    assert HexDigits(n) == ds by {
      if n >= 0x10 {
        NumeralSnoc(n);
        NumeralSnoc(n / 16);
        assert Numeral(n / 16 / 16, 16) == [];
      }
    }
    HexCodes();
    hide HexCode, HexChar;
    assert HexChars(ds) == [HexCode(n / 16), HexCode(n % 16)];
  }

  lemma MoreHexDigits(n: uint64)
    requires n >= 0x100
    ensures HexText(n) == HexText(n / 16) + [HexCode(n % 16)]
  {
    NumeralSnoc(n);
    HexCodes();
    hide HexCode, HexChar, Numeral;
    assert HexChars(HexDigits(n)) == HexChars(HexDigits(n / 16)) + [HexCode(n % 16)];
  }

  lemma NumeralSnoc(n: nat)
    requires n > 0
    ensures Numeral(n, 16) == Numeral(n / 16, 16) + [n % 16]
  {
    assert LowDigits(n, 16) == [n % 16] + LowDigits(n / 16, 16);
  }

  lemma HexCodes()
    ensures forall d: nat | d < 16 :: HexChar(d) == HexCode(d)
  {}

  // ---------------------------------------------------------------------------
  // Reading numbers
  // ---------------------------------------------------------------------------

  /** A NUL-terminated string. */
  predicate IsCString(s: seq<char8>) {
    |s| > 0 && s[|s| - 1] == 0 && forall i | 0 <= i < |s| - 1 :: s[i] != 0
  }

  function CText(s: seq<char8>): seq<char8>
    requires IsCString(s)
  {
    s[..|s| - 1]
  }

  function DecimalValues(t: seq<char8>): (ds: seq<int>)
    ensures |ds| == |t|
  {
    seq(|t|, i requires 0 <= i < |t| => t[i] as int - 0x30)
  }

  function HexValue(c: char8): int {
    if c > 0x39 then c - 0x37 else c - 0x30
  }

  function HexValues(t: seq<char8>): (ds: seq<int>)
    ensures |ds| == |t|
  {
    seq(|t|, i requires 0 <= i < |t| => HexValue(t[i]))
  }

  /** `_ToIntBase10` on any text. */
  function ReadDecimal(t: seq<char8>): int64 {
    if t != [] && t[0] == MINUS then Negated(Signed(Value(DecimalValues(t[1..]), 10)))
    else Signed(Value(DecimalValues(t), 10))
  }

  /** `_ToIntBase16` on any text. */
  function ReadHex(t: seq<char8>): int64 {
    if |t| >= 2 && t[0] == ZERO && (t[1] == SMALL_X || t[1] == BIG_X)
    then Signed(Value(HexValues(t[2..]), 16))
    else Signed(Value(HexValues(t), 16))
  }

  lemma StepValue(ds: seq<int>, k: nat, value: int64, b: radix)
    requires k < |ds| && value == Signed(Value(ds[..k], b))
    ensures Signed(Signed(value * b) + ds[k]) == Signed(Value(ds[..k + 1], b))
  {
    assert ds[..k + 1] == ds[..k] + [ds[k]];
    ValueSnoc(ds[..k], ds[k], b);
    WrapStep(Value(ds[..k], b), b, ds[k]);
    SignedSum(value * b, ds[k]);
  }

  lemma SignedSum(x: int, d: int)
    ensures Signed(Signed(x) + d) == Signed(x + d)
  {
    var m := (x + TWO63) / TWO64;
    assert x == Signed(x) + m * TWO64;
    WordUnique(x + d, Signed(x) + d, m);
  }

  /** Reading decimals by characters: each digit after ten times what is there, in 64 bits; a minus in
      front of all negates. */
  lemma ReadDecimalIs(t: seq<char8>, c: char8)
    ensures ReadDecimal([]) == 0
    ensures (t + [c])[0] != 0x2D ==> ReadDecimal(t + [c]) == Signed(10 * ReadDecimal(t) + (c as int - 0x30))
    ensures t == [] || t[0] != 0x2D ==> ReadDecimal([0x2D] + t) == Signed(-(ReadDecimal(t) as int))
  {
    assert DecimalValues(t + [c]) == DecimalValues(t) + [c as int - 0x30];
    ValueSnoc(DecimalValues(t), c as int - 0x30, 10);
    WrapStep(Value(DecimalValues(t), 10), 10, c as int - 0x30);
    assert ([0x2D] + t)[1..] == t;
    SignedIdentity(0);
  }

  /** Reading hexadecimals by characters, with or without a prefix "0x" or "0X"; characters above '9'
      count from 'A' on. */
  lemma ReadHexIs(t: seq<char8>, c: char8)
    ensures ReadHex([]) == 0
    ensures |t| != 1 || t[0] != 0x30 || (c != 0x78 && c != 0x58) ==>
              ReadHex(t + [c]) == Signed(16 * ReadHex(t) + (if c > 0x39 then c as int - 0x41 + 10 else c as int - 0x30))
    ensures ReadHex([0x30, 0x78]) == ReadHex([0x30, 0x58]) == 0
  {
    SignedIdentity(0);
    assert [0x30, 0x78][2..] == [] && [0x30, 0x58][2..] == [];
    var prefixed := |t| >= 2 && t[0] == 0x30 && (t[1] == 0x78 || t[1] == 0x58);
    assert prefixed ==> (t + [c])[2..] == t[2..] + [c];
    OneHexMore(if prefixed then t[2..] else t, c);
    hide Signed, Value, HexValues;
  }

  lemma OneHexMore(digits: seq<char8>, c: char8)
    ensures Signed(Value(HexValues(digits + [c]), 16)) == Signed(16 * Signed(Value(HexValues(digits), 16)) + HexValue(c))
  {
    assert HexValues(digits + [c]) == HexValues(digits) + [HexValue(c)];
    ValueSnoc(HexValues(digits), HexValue(c), 16);
    WrapStep(Value(HexValues(digits), 16), 16, HexValue(c));
  }

  method ToIntBase10(str: seq<char8>) returns (value: int64)
    requires IsCString(str)
    ensures value == ReadDecimal(CText(str))
  {
    value := 0;
    var isNegative := str[0] == MINUS;
    var start := if isNegative then 1 else 0;
    var length := |str| - 1 - start;
    ghost var ds := DecimalValues(CText(str)[start..]);
    var x: nat := 0;
    assert ds[..0] == [];
    while x < length
      invariant x <= length == |ds| && value == Signed(Value(ds[..x], 10))
    {
      StepValue(ds, x, value, 10);
      value := Signed(value * 10);
      value := Signed(value + (str[start + x] as int - 0x30));
      x := x + 1;
    }
    assert ds[..x] == ds && CText(str)[0..] == CText(str);
    if isNegative {
      value := Negated(value);
    }
  }

  method ToIntBase16(str: seq<char8>) returns (value: int64)
    requires IsCString(str)
    ensures value == ReadHex(CText(str))
  {
    value := 0;
    var start, length := 0, |str| - 1;
    if length >= 2 {
      if str[0] == ZERO && (str[1] == SMALL_X || str[1] == BIG_X) {
        start, length := 2, length - 2;
      }
    }
    ghost var ds := HexValues(CText(str)[start..]);
    var x: nat := 0;
    assert ds[..0] == [];
    while x < length
      invariant x <= length == |ds| && value == Signed(Value(ds[..x], 16))
    {
      StepValue(ds, x, value, 16);
      value := Signed(value * 0x10);
      value := Signed(value + (if str[start + x] > 0x39 then str[start + x] as int - 0x37 else str[start + x] as int - 0x30));
      x := x + 1;
    }
    assert ds[..x] == ds && CText(str)[0..] == CText(str);
  }

  method ToInt(str: seq<char8>, hex: bool) returns (value: int64)
    requires IsCString(str)
    ensures value == if hex then ReadHex(CText(str)) else ReadDecimal(CText(str))
  {
    if hex {
      value := ToIntBase16(str);
    } else {
      value := ToIntBase10(str);
    }
  }

  lemma ValuesOfDecimalChars(ds: seq<int>)
    requires forall k | 0 <= k < |ds| :: Abs(ds[k]) < 10
    ensures DecimalValues(DecimalChars(ds)) == ds
  {}

  lemma ValuesOfHexChars(ds: seq<int>)
    requires forall k | 0 <= k < |ds| :: 0 <= ds[k] < 16
    ensures HexValues(HexChars(ds)) == ds
  {}

  lemma SignedIdentity(n: int64)
    ensures Signed(n) == n && Signed(Word(n)) == n && Negated(Negated(n)) == n
  {
    if n < 0 {
      WordUnique(n, n + TWO64, -1);
      assert Word(n) == n + TWO64;
    }
    if n != -0x8000_0000_0000_0000 {
      assert Negated(n) == -n;
    }
  }

  /** Parsing a printed number gives it back, in both bases, for every 64-bit value; the odd
      text of INT64_MIN reads back through the same wrap-around. */
  lemma ToIntUndoesToString(n: int64)
    ensures ReadDecimal(NumberText(n, false)) == n
    ensures ReadHex(NumberText(n, true)) == n
  {
    DecimalReadsBack(n);
    HexReadsBack(n);
  }

  lemma DecimalReadsBack(n: int64)
    ensures ReadDecimal(DecimalText(n)) == n
  {
    SignedIdentity(n);
    if n == 0 {
      assert DecimalValues([ZERO]) == [0];
      assert Value([0], 10) == 0;
    } else {
      var m := if n < 0 then Negated(n) else n;
      var ds := Numeral(m, 10);
      NumeralDigits(m, 10);
      NoLeadingZero(m, 10);
      ValuesOfDecimalChars(ds);
      ValueOfNumeral(m, 10);
      SignedIdentity(m);
      if n < 0 {
        assert DecimalText(n)[1..] == DecimalChars(ds);
      } else {
        assert DecimalText(n)[0] != MINUS;
      }
    }
  }

  lemma HexReadsBack(n: int64)
    ensures ReadHex(HexText(Word(n))) == n
  {
    var u := Word(n);
    var ds := HexDigits(u);
    SignedIdentity(n);
    NumeralDigits(u, 16);
    ValueOfNumeral(u, 16);
    assert Value(ds, 16) == u by {
      if u < 0x10 {
        ValueSnoc([], 0, 16);
        ValueSnoc([0], u, 16);
        assert [] + [0] == [0] && [0] + [u] == [0, u];
      }
    }
    ValuesOfHexChars(ds);
    assert HexText(u)[2..] == HexChars(ds);
  }
}
