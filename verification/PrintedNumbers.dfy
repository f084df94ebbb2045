/** What the number conversions of `lib/print.c` print, told by reading it back. */
module PrintedNumbers {
  import opened Digits
  import opened WideStrings
  import opened Numbers
  import opened PrintFormat

  // ---------------------------------------------------------------------------
  // The texts of numbers
  // ---------------------------------------------------------------------------

  /** Upper-case hexadecimal digits without a leading zero, that read back as the number. */
  lemma HexTextForm(v: uint64)
    ensures var t := HexText(v);
            && 0 < |t| <= 16 && (|t| > 1 ==> t[0] != 48)
            && (forall i | 0 <= i < |t| :: 48 <= t[i] <= 57 || 65 <= t[i] <= 70)
            && ReadNumber(t, 16) == v
  {
    HexRoundTrip(v);
    if v != 0 {
      NumeralDigits(v, 16);
      NoLeadingZero(v, 16);
      SixtyFourBitLengths(v);
      HexCharsAre(Numeral(v, 16));
    }
  }

  lemma HexCharsAre(ds: seq<int>)
    requires forall k | 0 <= k < |ds| :: 0 <= ds[k] < 16
    ensures forall i | 0 <= i < |ds| ::
              var c := HexChars(ds)[i]; (48 <= c <= 57 || 65 <= c <= 70) && (c == 48 <==> ds[i] == 0)
  {
    forall d | 0 <= d < 16
      ensures (48 <= HexChar(d) <= 57 || 65 <= HexChar(d) <= 70) && (HexChar(d) == 48 <==> d == 0)
    {
      assert HEX[d] == if d < 10 then 48 + d else 55 + d;
    }
  }

  /** A '-' for a negative number; then decimal digits without a leading zero, that read back as the
      magnitude. */
  lemma DecimalTextForm(v: int64) returns (ds: seq<wchar>)
    ensures DecimalText(v, false) == (if v < 0 then [45] else []) + ds
    ensures 0 < |ds| <= 19 && (|ds| > 1 ==> ds[0] != 48)
    ensures forall i | 0 <= i < |ds| :: 48 <= ds[i] <= 57
    ensures ReadNumber(ds, 10) == if v < 0 then -(v as int) else v
  {
    hide ReadNumber, Numeral, LowDigits, Value, DigitRun;
    if v == 0 {
      ReadZero(10);
      ds := [ZERO];
    } else {
      var n := Abs(v);
      var digits := Numeral(n, 10);
      NumeralDigits(n, 10);
      NoLeadingZero(n, 10);
      SixtyFourBitLengths(n);
      RunOfDigitChars(digits);
      ValueOfNumeral(n, 10);
      ReadDigits(DigitChars(digits), digits, 10, n);
      ds := DigitChars(digits);
      assert digits[0] != 0;
    }
  }

  /** Hexadecimal texts by their characters. */
  lemma HexTextIs(v: uint64)
    ensures var c: wchar := [48, 49, 50, 51, 52, 53, 54, 55, 56, 57, 65, 66, 67, 68, 69, 70][v % 16];
            HexText(v) == if v < 16 then [c] else HexText(v / 16) + [c]
  {
    if v == 0 {
      assert HexText(0) == [48];
    } else {
      assert LowDigits(v, 16) == [v % 16] + LowDigits(v / 16, 16);
      assert Numeral(v, 16) == Numeral(v / 16, 16) + [v % 16];
      assert v < 16 ==> Numeral(v / 16, 16) == [];
    }
  }

  /** Decimal texts by their characters. */
  lemma DecimalTextIs(v: int64)
    ensures 0 <= v < 10 ==> DecimalText(v, false) == [48 + v]
    ensures v >= 10 ==> DecimalText(v, false) == DecimalText(v / 10, false) + [48 + v % 10]
    ensures v < 0 ==> DecimalText(v, false) == [45] + DigitChars(Numeral(-(v as int), 10))
    ensures -0x8000_0000_0000_0000 < v < 0 ==> DecimalText(v, false) == [45] + DecimalText(-(v as int), false)
  {
    if v >= 0 {
      assert v > 0 ==> LowDigits(v, 10) == [v % 10] + LowDigits(v / 10, 10);
      assert v > 0 ==> Numeral(v, 10) == Numeral(v / 10, 10) + [v % 10];
      assert v < 10 ==> Numeral(v / 10, 10) == [];
    }
  }

  /** What a character counts in a base; -1 for none of its digits. */
  function Digit(c: wchar, b: radix): int {
    if 48 <= c <= 57 then c - 48
    else if b == 16 && 65 <= c <= 70 then 10 + c - 65
    else if b == 16 && 97 <= c <= 102 then 10 + c - 97
    else -1
  }

  /** Readers by characters: blanks in front are skipped; each digit comes after what is there times the
      base, in 64 bits; whatever follows another character is not read. */
  lemma ReadNumberIs(t: seq<wchar>, c: wchar, rest: seq<wchar>, b: radix)
    ensures ReadNumber([], b) == 0
    ensures ReadNumber([32] + rest, b) == ReadNumber(rest, b)
    ensures (forall k | 0 <= k < |t| :: Digit(t[k], b) >= 0) && Digit(c, b) >= 0 ==>
              ReadNumber(t + [c], b) == Word(ReadNumber(t, b) * b + Digit(c, b))
    ensures (forall k | 0 <= k < |t| :: Digit(t[k], b) >= 0) && Digit(c, b) < 0 && (t != [] || c != 32) ==>
              ReadNumber(t + [c] + rest, b) == ReadNumber(t, b)
  {
    assert ([32] + rest)[1..] == rest;
    if forall k | 0 <= k < |t| :: Digit(t[k], b) >= 0 {
      if Digit(c, b) >= 0 {
        OneDigitMore(t, c, b);
      } else if t != [] || c != 32 {
        RunStops(t, c, rest, b);
        RunOfDigits(t, b);
        assert SkipBlanks(t + [c] + rest) == t + [c] + rest && SkipBlanks(t) == t;
      }
    }
  }

  lemma OneDigitMore(t: seq<wchar>, c: wchar, b: radix)
    requires (forall k | 0 <= k < |t| :: Digit(t[k], b) >= 0) && Digit(c, b) >= 0
    ensures ReadNumber(t + [c], b) == Word(ReadNumber(t, b) * b + Digit(c, b))
  {
    RunOfDigits(t, b);
    RunOfDigits(t + [c], b);
    var ds := DigitRun(t, b);
    assert DigitRun(t + [c], b) == ds + [Digit(c, b)];
    assert SkipBlanks(t + [c]) == t + [c] && SkipBlanks(t) == t;
    ValueSnoc(ds, Digit(c, b), b);
    WrapStep(Value(ds, b), b, Digit(c, b));
  }

  lemma {:induction false} RunOfDigits(t: seq<wchar>, b: radix)
    requires forall k | 0 <= k < |t| :: Digit(t[k], b) >= 0
    ensures |DigitRun(t, b)| == |t| && forall k | 0 <= k < |t| :: DigitRun(t, b)[k] == Digit(t[k], b)
  {
    if t != [] {
      RunOfDigits(t[1..], b);
    }
  }

  lemma {:induction false} RunStops(t: seq<wchar>, c: wchar, rest: seq<wchar>, b: radix)
    requires (forall k | 0 <= k < |t| :: Digit(t[k], b) >= 0) && Digit(c, b) < 0
    ensures DigitRun(t + [c] + rest, b) == DigitRun(t, b)
  {
    if t != [] {
      RunStops(t[1..], c, rest, b);
      assert (t + [c] + rest)[1..] == t[1..] + [c] + rest;
    }
  }

  /** Commas stand at every fourth place from the right, and not in front. */
  predicate CommasPlaced(t: seq<wchar>) {
    && t != [] && t[0] != 44
    && forall k | 0 <= k < |t| :: t[k] == 44 <==> (|t| - 1 - k) % 4 == 3
  }

  lemma {:induction false} CommaPlaces(ds: seq<int>)
    requires ds != [] && forall k | 0 <= k < |ds| :: 0 <= ds[k] < 10
    ensures CommasPlaced(Grouped(ds))
    decreases |ds|
  {
    if |ds| > 3 {
      var a, b := ds[..|ds| - 3], DigitChars(ds[|ds| - 3..]);
      CommaPlaces(a);
      FourMore(Grouped(a), b);
    }
  }

  lemma FourMore(g: seq<wchar>, b: seq<wchar>)
    requires CommasPlaced(g) && |b| == 3 && forall k | 0 <= k < 3 :: b[k] != 44
    ensures CommasPlaced(g + [44] + b)
  {
    var t := g + [44] + b;
    forall k | 0 <= k < |t|
      ensures t[k] == 44 <==> (|t| - 1 - k) % 4 == 3
    {
      if k < |g| {
        assert t[k] == g[k];
      } else if k > |g| {
        assert t[k] == b[k - |g| - 1];
      }
    }
  }

  // ---------------------------------------------------------------------------
  // Conversions
  // ---------------------------------------------------------------------------

  /** %x and %X: the low 32 bits of the argument, all 64 with l. */
  lemma HexConversion(c: wchar, item: Item, v: uint64)
    requires c == 120 || c == 88
    ensures ReadNumber(ArgText(c, item, Bits(v)), 16) == if item.long then v else v % 0x1_0000_0000
  {
    HexTextForm(if item.long then v else v % 0x1_0000_0000);
  }

  /** %u: the low 32 bits. */
  lemma UnsignedConversion(item: Item, v: uint64)
    requires !item.long && !item.comma
    ensures var t := ArgText(117, item, Bits(v));
            && ReadNumber(t, 10) == v % 0x1_0000_0000 && (|t| > 1 ==> t[0] != 48)
            && forall i | 0 <= i < |t| :: 48 <= t[i] <= 57
  {
    var ds := DecimalTextForm(v % 0x1_0000_0000);
    assert DecimalText(v % 0x1_0000_0000, false) == [] + ds == ds;
    LowIsItself(v % 0x1_0000_0000);
  }

  lemma LowIsItself(v: int)
    requires 0 <= v < 0x1_0000_0000
    ensures Signed(v) == v
  {}

  lemma SignedOf(v: uint64)
    ensures Signed(v) == if v >= 0x8000_0000_0000_0000 then v - 0x1_0000_0000_0000_0000 else v
  {}

  /** %d: a '-' exactly when bit 31 is set, and then the magnitude in two's complement. */
  lemma SignedConversion(item: Item, v: uint64) returns (ds: seq<wchar>)
    requires !item.long && !item.comma
    ensures ArgText(100, item, Bits(v)) == (if v % 0x1_0000_0000 >= 0x8000_0000 then [45] else []) + ds
    ensures (forall i | 0 <= i < |ds| :: 48 <= ds[i] <= 57) && (|ds| > 1 ==> ds[0] != 48)
    ensures ReadNumber(ds, 10) == var low := v % 0x1_0000_0000; if low >= 0x8000_0000 then 0x1_0000_0000 - low else low
  {
    var low := v % 0x1_0000_0000;
    ds := DecimalTextForm(if low >= 0x8000_0000 then low - 0x1_0000_0000 else low);
  }

  /** %ld and %lu: the same with bit 63. */
  lemma LongConversion(c: wchar, item: Item, v: uint64) returns (ds: seq<wchar>)
    requires (c == 100 || c == 117) && item.long && !item.comma
    ensures ArgText(c, item, Bits(v)) == (if v >= 0x8000_0000_0000_0000 then [45] else []) + ds
    ensures (forall i | 0 <= i < |ds| :: 48 <= ds[i] <= 57) && (|ds| > 1 ==> ds[0] != 48)
    ensures ReadNumber(ds, 10) == if v >= 0x8000_0000_0000_0000 then 0x1_0000_0000_0000_0000 - v else v
  {
    SignedOf(v);
    ds := DecimalTextForm(Signed(v));
  }

  /** With commas, the same once the commas are taken out; and behind the sign they stand at every fourth
      place from the right. */
  lemma CommaConversion(c: wchar, item: Item, v: uint64) returns (ds: seq<wchar>)
    requires (c == 100 || c == 117) && item.comma
    ensures var t, plain := ArgText(c, item, Bits(v)), ArgText(c, item.(comma := false), Bits(v));
            && WithoutCommas(t) == plain && plain != []
            && t == (if plain[0] == 45 then [45] else []) + ds
    ensures ds != [] && ds[0] != 44 && forall k | 0 <= k < |ds| :: ds[k] == 44 <==> (|ds| - 1 - k) % 4 == 3
  {
    var n: int64 := if c == 117 then Signed(if item.long then v else Low32(v))
                    else if item.long then Signed(v) else Signed32(v);
    assert ArgText(c, item, Bits(v)) == DecimalText(n, true);
    assert ArgText(c, item.(comma := false), Bits(v)) == DecimalText(n, false);
    CommasOnlyDecorate(n);
    var plain := DecimalTextForm(n);
    ds := GroupedForm(n);
  }

  lemma GroupedForm(n: int64) returns (ds: seq<wchar>)
    ensures DecimalText(n, true) == (if n < 0 then [45] else []) + ds
    ensures CommasPlaced(ds)
  {
    if n == 0 {
      ds := [ZERO];
    } else {
      NumeralDigits(Abs(n), 10);
      NoLeadingZero(Abs(n), 10);
      CommaPlaces(Numeral(Abs(n), 10));
      ds := Grouped(Numeral(Abs(n), 10));
    }
  }

  // ---------------------------------------------------------------------------
  // Fields
  // ---------------------------------------------------------------------------

  /** Every character of a field: the text, cut to the field width, behind enough padding for the width;
      and blanks for what the field width has more, before or behind. */
  lemma FieldForm(text: seq<wchar>, item: Item)
    ensures var n := if |text| < item.fieldWidth then |text| else item.fieldWidth;
            var w := if item.width < n then n else item.width;
            var blanks := if item.fieldWidth != 0xFFFF_FFFF_FFFF_FFFF && item.fieldWidth > w then item.fieldWidth - w else 0;
            var start := if item.padBefore then blanks else 0;
            var r := Field(text, item);
            && |r| == w + blanks
            && (forall i | 0 <= i < |r| ::
                  r[i] == if start <= i < start + (w - n) then item.pad
                          else if start + (w - n) <= i < start + w then text[i - start - (w - n)] else 32)
  {
    hide Taken, FullWidth, Spaces;
    FieldParts(text, item);
  }

  lemma FieldParts(text: seq<wchar>, item: Item)
    ensures Taken(text, item) == if |text| < item.fieldWidth then |text| else item.fieldWidth
    ensures FullWidth(text, item) == var n := Taken(text, item); if item.width < n then n else item.width
    ensures Spaces(text, item) == var w := FullWidth(text, item);
              if item.fieldWidth != 0xFFFF_FFFF_FFFF_FFFF && item.fieldWidth > w then item.fieldWidth - w else 0
  {}

  /** %X without a field width is always 8 digits, 16 with l, and reads back as the argument. */
  lemma PaddedHex(item: Item, v: uint64)
    requires item.fieldWidth == 0xFFFF_FFFF_FFFF_FFFF
    ensures var r := Field(ArgText(88, item, Bits(v)), ItemFor(88, item));
            && |r| == (if item.long then 16 else 8)
            && (forall i | 0 <= i < |r| :: 48 <= r[i] <= 57 || 65 <= r[i] <= 70)
            && ReadNumber(r, 16) == if item.long then v else v % 0x1_0000_0000
  {
    var u := if item.long then v else v % 0x1_0000_0000;
    var t := HexText(u);
    HexTextForm(u);
    if !item.long {
      ShortHex(u);
    }
    hide HexText, Field;
    var n := (if item.long then 16 else 8) - |t|;
    FieldForm(t, ItemFor(88, item));
    var r := Field(t, ItemFor(88, item));
    assert r == Repeat(48, n) + t;
    ZerosInFront(n, t);
  }

  lemma ShortHex(u: uint64)
    requires u < 0x1_0000_0000
    ensures |HexText(u)| <= 8
  {
    assert Power(16, 4) == 0x1_0000;
    assert Power(16, 8) == 0x1_0000_0000;
    NumeralLength(u, 16, 8);
  }

  lemma {:induction false} ZerosInFront(n: nat, t: seq<wchar>)
    requires t != [] && t[0] != 32
    ensures ReadNumber(Repeat(48, n) + t, 16) == ReadNumber(t, 16)
  {
    if n == 0 {
      assert Repeat(48, 0) + t == t;
    } else {
      var s := Repeat(48, n) + t;
      assert s[1..] == Repeat(48, n - 1) + t;
      ZerosInFront(n - 1, t);
      assert SkipBlanks(s) == s && SkipBlanks(s[1..]) == s[1..];
      assert DigitRun(s, 16) == [0] + DigitRun(s[1..], 16);
      ZeroInFront(DigitRun(s[1..], 16));
    }
  }

  lemma {:induction false} ZeroInFront(ds: seq<int>)
    ensures Value([0] + ds, 16) == Value(ds, 16)
  {
    if ds == [] {
      assert [0] + ds == [] + [0];
      ValueSnoc([], 0, 16);
    } else {
      var init, d := ds[..|ds| - 1], ds[|ds| - 1];
      ZeroInFront(init);
      assert [0] + ds == ([0] + init) + [d] && ds == init + [d];
      ValueSnoc([0] + init, d, 16);
      ValueSnoc(init, d, 16);
    }
  }
}
