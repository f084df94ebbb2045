/** The number printers of `lib/print.c` and the number readers of `lib/str.c`. */
module Numbers {
  import opened Digits
  import opened WideStrings

  const BLANK: wchar := 32
  const ZERO: wchar := 48
  const COMMA: wchar := 44
  const MINUS: wchar := 45

  /** The table `Hex` of `lib/print.c`. */
  const HEX: seq<wchar> := [48, 49, 50, 51, 52, 53, 54, 55, 56, 57, 65, 66, 67, 68, 69, 70]

  function HexChar(d: int): wchar {
    if 0 <= d < 16 then HEX[d] else 0
  }

  function HexChars(ds: seq<int>): (t: seq<wchar>)
    ensures |t| == |ds|
  {
    seq(|ds|, i requires 0 <= i < |ds| => HexChar(ds[i]))
  }

  /** The text `ValueToHex` leaves: upper case, no leading zeros. */
  function HexText(v: uint64): seq<wchar> {
    if v == 0 then [ZERO] else HexChars(Numeral(v, 16))
  }

  lemma LowDigitsStep(all: seq<int>, k: nat, v: int, b: radix)
    requires k <= |all| && all[k..] == LowDigits(v, b) && v != 0
    ensures k < |all| && all[k] == TruncMod(v, b) && all[k + 1..] == LowDigits(TruncDiv(v, b), b)
  {
    assert all[k..][1..] == all[k + 1..];
  }

  method ValueToHex(buffer: array<wchar>, v: uint64)
    requires buffer.Length > 16
    modifies buffer
    ensures Holds(buffer[..], HexText(v))
  {
    if v == 0 {
      buffer[0] := ZERO;
      buffer[1] := 0;
      return;
    }
    ghost var ds := LowDigits(v, 16);
    SixtyFourBitLengths(v);
    NumeralDigits(v, 16);
    var str := new wchar[30];
    var p1: nat, rest: nat := 0, v;
    while rest != 0
      invariant p1 <= |ds| && ds[p1..] == LowDigits(rest, 16)
      invariant forall k | 0 <= k < p1 :: str[k] == HexChar(ds[k])
      decreases rest
    {
      LowDigitsStep(ds, p1, rest, 16);
      str[p1] := HEX[rest % 16];
      p1, rest := p1 + 1, rest / 16;
    }
    PutBackward(buffer, str, p1, v);
  }

  /** The second loop of `ValueToHex`, and the terminator. */
  method PutBackward(buffer: array<wchar>, str: array<wchar>, n: nat, ghost v: uint64)
    requires buffer != str && n < buffer.Length && n <= str.Length && v != 0 && n == |LowDigits(v, 16)|
    requires forall k | 0 <= k < n :: str[k] == HexChar(LowDigits(v, 16)[k])
    modifies buffer
    ensures Holds(buffer[..], HexText(v))
  {
    hide LowDigits;
    var p1: nat, p2: nat := n, 0;
    while p1 != 0
      invariant p1 + p2 == n
      invariant forall k | 0 <= k < n :: str[k] == HexChar(LowDigits(v, 16)[k])
      invariant forall k | 0 <= k < p2 :: buffer[k] == HexChar(Numeral(v, 16)[k])
      decreases p1
    {
      ReversedAt(LowDigits(v, 16), p2);
      p1 := p1 - 1;
      buffer[p2] := str[p1];
      p2 := p2 + 1;
    }
    buffer[p2] := 0;
  }

  // ---------------------------------------------------------------------------
  // Decimal
  // ---------------------------------------------------------------------------

  function DigitChar(d: int): wchar {
    if 0 <= d < 10 then ZERO + d else 0
  }

  function DigitChars(ds: seq<int>): (t: seq<wchar>)
    ensures |t| == |ds|
  {
    seq(|ds|, i requires 0 <= i < |ds| => DigitChar(ds[i]))
  }

  /** Groups of three digits from the right, separated by commas. */
  function Grouped(ds: seq<int>): seq<wchar> {
    if |ds| <= 3 then DigitChars(ds)
    else Grouped(ds[..|ds| - 3]) + [COMMA] + DigitChars(ds[|ds| - 3..])
  }

  /** The text `ValueToString` leaves. */
  function DecimalText(v: int64, comma: bool): seq<wchar> {
    var ds := Numeral(Abs(v), 10);
    (if v < 0 then [MINUS] else [])
    + if v == 0 then [ZERO] else if comma then Grouped(ds) else DigitChars(ds)
  }

  function WithoutCommas(t: seq<wchar>): seq<wchar> {
    if t == [] then [] else (if t[0] == COMMA then [] else [t[0]]) + WithoutCommas(t[1..])
  }

  lemma {:induction false} WithoutCommasConcat(a: seq<wchar>, b: seq<wchar>)
    ensures WithoutCommas(a + b) == WithoutCommas(a) + WithoutCommas(b)
  {
    if a == [] {
      assert a + b == b;
    } else {
      assert (a + b)[1..] == a[1..] + b;
      WithoutCommasConcat(a[1..], b);
    }
  }

  lemma {:induction false} NoCommas(t: seq<wchar>)
    requires forall i | 0 <= i < |t| :: t[i] != COMMA
    ensures WithoutCommas(t) == t
  {
    if t != [] {
      NoCommas(t[1..]);
    }
  }

  lemma {:induction false} UngroupedDigits(ds: seq<int>)
    ensures WithoutCommas(Grouped(ds)) == DigitChars(ds)
  {
    NoCommas(DigitChars(ds));
    if |ds| > 3 {
      var a, b := ds[..|ds| - 3], ds[|ds| - 3..];
      UngroupedDigits(a);
      NoCommas(DigitChars(b));
      WithoutCommasConcat(Grouped(a) + [COMMA], DigitChars(b));
      WithoutCommasConcat(Grouped(a), [COMMA]);
      assert WithoutCommas([COMMA]) == [];
      assert DigitChars(a) + [] + DigitChars(b) == DigitChars(ds);
    }
  }

  /** Taking the commas out of the grouped form gives the plain form. */
  lemma CommasOnlyDecorate(v: int64)
    ensures WithoutCommas(DecimalText(v, true)) == DecimalText(v, false)
  {
    var ds := Numeral(Abs(v), 10);
    var sign: seq<wchar> := if v < 0 then [MINUS] else [];
    UngroupedDigits(ds);
    NoCommas(sign);
    NoCommas([ZERO]);
    WithoutCommasConcat(sign, if v == 0 then [ZERO] else Grouped(ds));
  }

  /** A comma precedes digit i of n exactly when a multiple of three digits, and at least
      one but not all, remain. */
  predicate CommaBefore(n: nat, i: int) {
    0 < i < n && (n - i) % 3 == 0
  }

  /** The text after printing i digits one at a time. */
  function Printed(ds: seq<int>, comma: bool, i: nat): seq<wchar>
    requires i <= |ds|
  {
    if i == 0 then []
    else Printed(ds, comma, i - 1)
         + (if comma && CommaBefore(|ds|, i - 1) then [COMMA] else [])
         + [DigitChar(ds[i - 1])]
  }

  lemma {:induction false} PrintedPlain(ds: seq<int>, i: nat)
    requires i <= |ds|
    ensures Printed(ds, false, i) == DigitChars(ds[..i])
  {
    if i > 0 {
      PrintedPlain(ds, i - 1);
      assert DigitChars(ds[..i]) == DigitChars(ds[..i - 1]) + [DigitChar(ds[i - 1])];
    }
  }

  lemma {:induction false} PrintedPrefix(a: seq<int>, ds: seq<int>, i: nat)
    requires i <= |a| <= |ds| && a == ds[..|a|] && (|ds| - |a|) % 3 == 0
    ensures Printed(ds, true, i) == Printed(a, true, i)
    decreases i
  {
    if i > 0 {
      PrintedPrefix(a, ds, i - 1);
      assert CommaBefore(|ds|, i - 1) == CommaBefore(|a|, i - 1);
    }
  }

  lemma {:induction false} PrintedGroups(ds: seq<int>)
    ensures Printed(ds, true, |ds|) == Grouped(ds)
    decreases |ds|
  {
    var n := |ds|;
    if n > 3 {
      var a := ds[..n - 3];
      PrintedGroups(a);
      PrintedPrefix(a, ds, n - 3);
      assert !CommaBefore(n, n - 2) && !CommaBefore(n, n - 1) && CommaBefore(n, n - 3);
      assert Printed(ds, true, n - 2) == Grouped(a) + [COMMA] + [DigitChar(ds[n - 3])];
      assert Printed(ds, true, n - 1) == Printed(ds, true, n - 2) + [DigitChar(ds[n - 2])];
      assert Printed(ds, true, n) == Printed(ds, true, n - 1) + [DigitChar(ds[n - 1])];
      var tail := [DigitChar(ds[n - 3]), DigitChar(ds[n - 2]), DigitChar(ds[n - 1])];
      assert DigitChars(ds[n - 3..]) == tail;
      assert Printed(ds, true, n) == Grouped(a) + [COMMA] + tail;
    } else {
      PrintedShort(ds, n);
      assert ds[..n] == ds;
    }
  }

  lemma {:induction false} PrintedShort(ds: seq<int>, i: nat)
    requires i <= |ds| <= 3
    ensures Printed(ds, true, i) == DigitChars(ds[..i])
  {
    if i > 0 {
      PrintedShort(ds, i - 1);
      assert DigitChars(ds[..i]) == DigitChars(ds[..i - 1]) + [DigitChar(ds[i - 1])];
    }
  }

  lemma {:induction false} PrintedLength(ds: seq<int>, comma: bool, i: nat)
    requires i <= |ds|
    ensures |Printed(ds, comma, i)| <= 2 * i
    ensures !comma ==> |Printed(ds, comma, i)| == i
  {
    if i > 0 {
      PrintedLength(ds, comma, i - 1);
    }
  }

  /** `c` of `ValueToString` when i digits are out: it reaches 0 exactly where a comma goes. */
  function Countdown(n: nat, comma: bool, i: nat): int
    requires i <= n
  {
    if !comma then 1000 - i
    else if i == 0 && n % 3 == 0 then 4
    else (n - i) % 3 + 1
  }

  method ValueToString(buffer: array<wchar>, comma: bool, v: int64)
    requires buffer.Length > 40
    modifies buffer
    ensures Holds(buffer[..], DecimalText(v, comma))
  {
    hide Grouped, Printed, Value;
    if v == 0 {
      buffer[0] := ZERO;
      buffer[1] := 0;
      return;
    }
    var start := 0;
    if v < 0 {
      buffer[0] := MINUS;
      start := 1;
    }
    // Negating INT64_MIN wraps; its unsigned reading in the division is 2^63 all the same.
    var rest: nat := Abs(v);
    ghost var low := LowDigits(rest, 10);
    SixtyFourBitLengths(rest);
    NumeralDigits(rest, 10);
    var str := new wchar[40];
    var p1: nat := 0;
    while rest != 0
      invariant p1 <= |low| && low[p1..] == LowDigits(rest, 10)
      invariant forall k | 0 <= k < p1 :: str[k] == DigitChar(low[k])
      invariant buffer[..start] == if v < 0 then [MINUS] else []
      decreases rest
    {
      LowDigitsStep(low, p1, rest, 10);
      str[p1] := rest % 10 + ZERO;
      p1, rest := p1 + 1, rest / 10;
    }
    var p2 := PrintDigits(buffer, start, str, p1, comma, Numeral(Abs(v), 10), low);
    buffer[p2] := 0;
    PrintedGroups(Numeral(Abs(v), 10));
    PrintedPlain(Numeral(Abs(v), 10), p1);
    assert Numeral(Abs(v), 10)[..p1] == Numeral(Abs(v), 10);
  }

  lemma PrintStep(ds: seq<int>, comma: bool, i: nat)
    requires i < |ds| < 999
    ensures var n, c := |ds|, Countdown(|ds|, comma, i) - 1;
            && (c == 0 <==> comma && CommaBefore(n, i))
            && Countdown(n, comma, i + 1) == (if c == 0 then 3 else c)
            && |Printed(ds, comma, i + 1)| == |Printed(ds, comma, i)| + (if c == 0 then 2 else 1) <= 2 * (i + 1)
            && Printed(ds, comma, i + 1)
               == Printed(ds, comma, i) + (if c == 0 then [COMMA] else []) + [DigitChar(ds[i])]
  {
    CountdownStep(|ds|, comma, i);
    PrintedLength(ds, comma, i);
  }

  /** The countdown from the table's value reaches 0 exactly where a comma goes, and starts again at 3. */
  lemma CountdownStep(n: nat, comma: bool, i: nat)
    requires i < n < 999
    ensures var c := Countdown(n, comma, i) - 1;
            && (c == 0 <==> comma && CommaBefore(n, i))
            && Countdown(n, comma, i + 1) == (if c == 0 then 3 else c)
    ensures Countdown(n, comma, 0) == (if comma then [3, 1, 2][n % 3] else 999) + 1
  {}

  /** The output loop of `ValueToString`. */
  method PrintDigits(buffer: array<wchar>, start: nat, str: array<wchar>, n: nat, comma: bool,
                     ghost ds: seq<int>, ghost low: seq<int>)
    returns (p2: nat)
    requires buffer != str && start + 2 * n < buffer.Length && n <= str.Length && n < 999
    requires |low| == n && ds == Reversed(low)
    requires forall k | 0 <= k < n :: str[k] == DigitChar(low[k])
    modifies buffer
    ensures p2 == start + |Printed(ds, comma, n)| < buffer.Length
    ensures buffer[..p2] == old(buffer[..start]) + Printed(ds, comma, n)
  {
    var p1: nat, i: nat := n, 0;
    p2 := start;
    var c := (if comma then [3, 1, 2][p1 % 3] else 999) + 1;
    while p1 != 0
      invariant p1 + i == n && c == Countdown(n, comma, i)
      invariant p2 == start + |Printed(ds, comma, i)| && |Printed(ds, comma, i)| <= 2 * i
      invariant buffer[..p2] == old(buffer[..start]) + Printed(ds, comma, i)
      invariant forall k | 0 <= k < n :: str[k] == DigitChar(low[k])
      decreases p1
    {
      PrintStep(ds, comma, i);
      ReversedAt(low, i);
      c := c - 1;
      if c == 0 {
        buffer[p2] := COMMA;
        p2 := p2 + 1;
        c := 3;
      }
      p1 := p1 - 1;
      buffer[p2] := str[p1];
      p2 := p2 + 1;
      i := i + 1;
    }
  }

  // ---------------------------------------------------------------------------
  // Readers
  // ---------------------------------------------------------------------------

  function SkipBlanks(t: seq<wchar>): seq<wchar> {
    if t != [] && t[0] == BLANK then SkipBlanks(t[1..]) else t
  }

  /** The value of a digit in the base, or -1. Letters count in either case. */
  function DigitValue(c: wchar, b: radix): int {
    if 48 <= c <= 57 then c - 48
    else if b == 16 && 65 <= c <= 70 then c - 55
    else if b == 16 && 97 <= c <= 102 then c - 87
    else -1
  }

  /** The digits a reader consumes: up to the first character that is none. */
  function DigitRun(t: seq<wchar>, b: radix): seq<int> {
    if t == [] || DigitValue(t[0], b) < 0 then [] else [DigitValue(t[0], b)] + DigitRun(t[1..], b)
  }

  /** What a reader returns for a text, in UINTN arithmetic. */
  function ReadNumber(t: seq<wchar>, b: radix): uint64 {
    Word(Value(DigitRun(SkipBlanks(t), b), b))
  }

  method SkipSpaces(str: seq<wchar>) returns (i: nat)
    requires IsString(str)
    ensures i < |str| && TextFrom(str, i) == SkipBlanks(Text(str))
  {
    i := 0;
    assert TextFrom(str, 0) == Text(str);
    while str[i] != 0 && str[i] == BLANK
      invariant i < |str| && SkipBlanks(TextFrom(str, i)) == SkipBlanks(Text(str))
      decreases |str| - i
    {
      assert TextFrom(str, i)[1..] == TextFrom(str, i + 1);
      i := i + 1;
    }
  }

  /** A reader at position i: `u` is the number of the digits in `done`. */
  ghost predicate Reading(str: seq<wchar>, i: nat, b: radix, u: uint64, done: seq<int>)
    requires IsString(str) && i < |str|
  {
    done + DigitRun(TextFrom(str, i), b) == DigitRun(SkipBlanks(Text(str)), b) && u == Word(Value(done, b))
  }

  lemma ReadingStarts(str: seq<wchar>, i: nat, b: radix)
    requires IsString(str) && i < |str| && TextFrom(str, i) == SkipBlanks(Text(str))
    ensures Reading(str, i, b, 0, [])
  {}

  lemma ReadingEnds(str: seq<wchar>, i: nat, b: radix, u: uint64, done: seq<int>)
    requires IsString(str) && i < |str| && Reading(str, i, b, u, done)
    requires str[i] == 0 || DigitValue(str[i], b) < 0
    ensures u == ReadNumber(Text(str), b)
  {
    assert DigitRun(TextFrom(str, i), b) == [] && done + [] == done;
  }

  lemma NextDigit(str: seq<wchar>, i: nat, b: radix)
    requires IsString(str) && i < |str| && str[i] != 0 && DigitValue(str[i], b) >= 0
    ensures i + 1 < |str|
    ensures DigitRun(TextFrom(str, i), b) == [DigitValue(str[i], b)] + DigitRun(TextFrom(str, i + 1), b)
  {
    assert TextFrom(str, i)[1..] == TextFrom(str, i + 1);
  }

  lemma ReadingStep(str: seq<wchar>, i: nat, b: radix, u: uint64, done: seq<int>, d: nat)
    requires IsString(str) && i < |str| && Reading(str, i, b, u, done)
    requires str[i] != 0 && DigitValue(str[i], b) == d
    ensures i + 1 < |str|
    ensures Reading(str, i + 1, b, Word(u * b + d), done + [d])
  {
    NextDigit(str, i, b);
    var rest := DigitRun(TextFrom(str, i + 1), b);
    assert (done + [d]) + rest == done + ([d] + rest);
    assert Word(u * b + d) == Word(Value(done + [d], b)) by {
      ValueSnoc(done, d, b);
      WrapStep(Value(done, b), b, d);
    }
  }

  /** `u << 4 | d` drops the bits shifted out. */
  method ShiftIn(u: uint64, d: nat) returns (r: uint64)
    requires d < 16
    ensures r == Word(u * 16 + d)
  {
    r := Word(u * 16) + d;
  }

  /** Lower-case digits are read as upper-case ones. */
  function UpperHex(c: wchar): wchar {
    if 97 <= c <= 102 then c - 32 else c
  }

  predicate IsHexDigit(c: wchar) {
    48 <= c <= 57 || 65 <= c <= 70
  }

  function DigitOf(c: wchar): int {
    c - (if c >= 65 then 55 else 48)
  }

  lemma DigitOfUpper(c: wchar)
    requires IsHexDigit(UpperHex(c))
    ensures DigitValue(c, 16) == DigitOf(UpperHex(c)) && 0 <= DigitValue(c, 16) < 16
  {}

  lemma HexStep(str: seq<wchar>, i: nat, u: uint64, done: seq<int>, d: nat)
    requires IsString(str) && i < |str| && Reading(str, i, 16, u, done) && str[i] != 0 && d < 16
    requires IsHexDigit(UpperHex(str[i])) && d == DigitOf(UpperHex(str[i]))
    ensures i + 1 < |str| && Reading(str, i + 1, 16, Word(u * 16 + d), done + [d])
  {
    DigitOfUpper(str[i]);
    ReadingStep(str, i, 16, u, done, d);
  }

  /** `xtoi`. */
  method Xtoi(str: seq<wchar>) returns (u: uint64)
    requires IsString(str)
    ensures u == ReadNumber(Text(str), 16)
  {
    hide Reading, ReadNumber;
    var i: nat := SkipSpaces(str);
    ghost var done: seq<int> := [];
    u := 0;
    ReadingStarts(str, i, 16);
    while str[i] != 0
      invariant i < |str| && Reading(str, i, 16, u, done)
      decreases |str| - i
    {
      var c := UpperHex(str[i]);
      if !IsHexDigit(c) {
        break;
      }
      var d: nat := DigitOf(c);
      HexStep(str, i, u, done, d);
      u := ShiftIn(u, d);
      done, i := done + [d], i + 1;
    }
    ReadingEnds(str, i, 16, u, done);
  }

  method TimesTenPlus(u: uint64, d: nat) returns (r: uint64)
    ensures r == Word(u * 10 + d)
  {
    r := Word(u * 10 + d);
  }

  /** `Atoi`. */
  method Atoi(str: seq<wchar>) returns (u: uint64)
    requires IsString(str)
    ensures u == ReadNumber(Text(str), 10)
  {
    hide Reading, ReadNumber;
    var i: nat := SkipSpaces(str);
    ghost var done: seq<int> := [];
    u := 0;
    ReadingStarts(str, i, 10);
    while str[i] != 0
      invariant i < |str| && Reading(str, i, 10, u, done)
      decreases |str| - i
    {
      var c := str[i];
      if 48 <= c <= 57 {
        ReadingStep(str, i, 10, u, done, c - 48);
        u := TimesTenPlus(u, c - 48);
        done := done + [c - 48];
      } else {
        break;
      }
      i := i + 1;
    }
    ReadingEnds(str, i, 10, u, done);
  }

  // ---------------------------------------------------------------------------
  // Round trips
  // ---------------------------------------------------------------------------

  lemma {:induction false} RunOfHexChars(ds: seq<int>)
    requires forall k | 0 <= k < |ds| :: 0 <= ds[k] < 16
    ensures DigitRun(HexChars(ds), 16) == ds
  {
    if ds != [] {
      assert HexChars(ds)[1..] == HexChars(ds[1..]);
      RunOfHexChars(ds[1..]);
    }
  }

  lemma {:induction false} RunOfDigitChars(ds: seq<int>)
    requires forall k | 0 <= k < |ds| :: 0 <= ds[k] < 10
    ensures DigitRun(DigitChars(ds), 10) == ds
  {
    if ds != [] {
      assert DigitChars(ds)[1..] == DigitChars(ds[1..]);
      RunOfDigitChars(ds[1..]);
    }
  }

  lemma ReadDigits(t: seq<wchar>, ds: seq<int>, b: radix, v: uint64)
    requires t == [] || t[0] != BLANK
    requires DigitRun(t, b) == ds && Value(ds, b) == v
    ensures ReadNumber(t, b) == v
  {
    assert SkipBlanks(t) == t;
    assert Word(v) == v;
  }

  lemma ReadZero(b: radix)
    ensures ReadNumber([ZERO], b) == 0
  {
    assert DigitRun([ZERO], b) == [0] + DigitRun([], b);
    ValueSnoc([], 0, b);
    assert [] + [0] == [0];
    ReadDigits([ZERO], [0], b, 0);
  }

  /** Reading a printed hexadecimal number gives it back, for every 64-bit value. */
  lemma HexRoundTrip(v: uint64)
    ensures ReadNumber(HexText(v), 16) == v
  {
    if v == 0 {
      ReadZero(16);
    } else {
      var ds := Numeral(v, 16);
      NumeralDigits(v, 16);
      RunOfHexChars(ds);
      ValueOfNumeral(v, 16);
      ReadDigits(HexChars(ds), ds, 16, v);
    }
  }

  /** Reading a plain printed decimal number gives it back, for every nonnegative value. */
  lemma DecimalRoundTrip(v: int64)
    requires v >= 0
    ensures ReadNumber(DecimalText(v, false), 10) == v
  {
    if v == 0 {
      ReadZero(10);
      assert DecimalText(v, false) == [ZERO];
    } else {
      var ds := Numeral(v, 10);
      NumeralDigits(v, 10);
      RunOfDigitChars(ds);
      ValueOfNumeral(v, 10);
      ReadDigits(DigitChars(ds), ds, 10, v);
      assert DecimalText(v, false) == DigitChars(ds);
    }
  }

  lemma {:induction false} ValueBelowPower(ds: seq<int>, b: radix)
    requires forall k | 0 <= k < |ds| :: 0 <= ds[k] < b
    ensures 0 <= Value(ds, b) < Power(b, |ds|)
  {
    if ds != [] {
      ValueBelowPower(ds[..|ds| - 1], b);
    }
  }

  /** The reader of a grouped number sees its first group only. */
  lemma {:induction false} RunOfGroups(ds: seq<int>) returns (k: nat)
    requires forall j | 0 <= j < |ds| :: 0 <= ds[j] < 10
    ensures k <= |ds| && k <= 3 && DigitRun(Grouped(ds), 10) == ds[..k]
    ensures |ds| <= 3 ==> k == |ds|
    ensures |ds| > 0 ==> Grouped(ds) != [] && Grouped(ds)[0] == DigitChar(ds[0])
  {
    if |ds| <= 3 {
      RunOfDigitChars(ds);
      k := |ds|;
      assert ds[..k] == ds;
    } else {
      var a := ds[..|ds| - 3];
      k := RunOfGroups(a);
      RunStops(Grouped(a), DigitChars(ds[|ds| - 3..]));
      assert Grouped(ds) == Grouped(a) + [COMMA] + DigitChars(ds[|ds| - 3..]);
      assert a[..k] == ds[..k];
    }
  }

  lemma {:induction false} RunStops(t: seq<wchar>, rest: seq<wchar>)
    ensures DigitRun(t + [COMMA] + rest, 10) == DigitRun(t, 10)
  {
    if t != [] {
      assert (t + [COMMA] + rest)[1..] == t[1..] + [COMMA] + rest;
      RunStops(t[1..], rest);
    }
  }

  lemma SmallPowers(n: nat)
    requires n <= 3
    ensures 1 <= Power(10, n) <= 1000 && Power(10, 3) == 1000
  {}

  lemma FirstGroup(v: int64, k: nat)
    requires v > 0 && k <= 3 && k <= |Numeral(v, 10)| && (|Numeral(v, 10)| <= 3 ==> k == |Numeral(v, 10)|)
    ensures 0 <= Value(Numeral(v, 10)[..k], 10) < 1000
    ensures v < 1000 ==> Value(Numeral(v, 10)[..k], 10) == v
  {
    var ds := Numeral(v, 10);
    NumeralDigits(v, 10);
    ValueBelowPower(ds[..k], 10);
    SmallPowers(k);
    if v < 1000 {
      NumeralLength(v, 10, 3);
      ValueOfNumeral(v, 10);
      assert ds[..k] == ds;
    }
  }

  /** A positive grouped number reads back only if it has a single group. */
  lemma GroupedReadsBackIff(v: int64)
    requires v > 0
    ensures ReadNumber(DecimalText(v, true), 10) == v <==> v < 1000
  {
    var ds := Numeral(v, 10);
    NumeralDigits(v, 10);
    NoLeadingZero(v, 10);
    var k := RunOfGroups(ds);
    FirstGroup(v, k);
    var t := DecimalText(v, true);
    assert t == Grouped(ds);
    ReadDigits(t, ds[..k], 10, Value(ds[..k], 10));
  }

  lemma NegativeReadsAsZero(v: int64, comma: bool)
    requires v < 0
    ensures ReadNumber(DecimalText(v, comma), 10) == 0
  {
    var t := DecimalText(v, comma);
    assert t[0] == MINUS && DigitRun(t, 10) == [];
    ReadDigits(t, [], 10, 0);
  }

  /** The reader knows no sign, and stops at the first comma. */
  lemma DecimalRoundTripIff(v: int64, comma: bool)
    ensures ReadNumber(DecimalText(v, comma), 10) == Word(v) <==> v >= 0 && (comma ==> v < 1000)
  {
    WordOfSmall(v);
    if v < 0 {
      NegativeReadsAsZero(v, comma);
    } else if v > 0 && comma {
      GroupedReadsBackIff(v);
    } else {
      assert DecimalText(0, true) == DecimalText(0, false);
      DecimalRoundTrip(v);
    }
  }

  lemma DecimalDoesNotRoundTrip()
    ensures ReadNumber(DecimalText(-5, false), 10) != Word(-5)
    ensures ReadNumber(DecimalText(1000, true), 10) != Word(1000)
  {
    DecimalRoundTripIff(-5, false);
    DecimalRoundTripIff(1000, true);
  }
}
