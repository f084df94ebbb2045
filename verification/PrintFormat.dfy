/** What a format string of `lib/print.c` means: the text its directives stand for. */
module PrintFormat {
  import opened Basics
  import opened Digits
  import opened WideStrings
  import opened Numbers

  /** A variable argument: a number, a string or NULL, or an object (GUID, device path, time,
      status, floating point number) whose text is given. */
  datatype Arg =
    | Bits(bits: uint64)
    | String(text: Option<seq<wchar>>)
    | Object(shown: seq<wchar>)

  const PERCENT: wchar := 37
  const SPACE: wchar := 32
  const NEWLINE: wchar := 10
  const RETURN: wchar := 13
  const QUESTION: wchar := 63

  /** L"(null)" */
  const NULL_TEXT: seq<wchar> := [40, 110, 117, 108, 108, 41]

  /** (UINTN) -1: no field width given. */
  const NO_WIDTH: uint64 := 0xFFFF_FFFF_FFFF_FFFF

  /** The fields of PRINT_ITEM that flags and widths set. */
  datatype Item = Item(width: uint64, fieldWidth: uint64, toField: bool, pad: wchar,
                       padBefore: bool, comma: bool, long: bool)

  const NEW_ITEM := Item(0, NO_WIDTH, false, SPACE, true, false, false)

  /** The attributes of the output device; all 0 when printing to a string. */
  datatype Attributes = Attributes(norm: nat, highlight: nat, error: nat)

  function SetWidth(item: Item, v: uint64): Item {
    if item.toField then item.(fieldWidth := v) else item.(width := v)
  }

  predicate IsFlag(c: wchar) {
    c == 48 || c == 45 || c == 44 || c == 46 || c == 108
  }

  /** The flags 0 - , . l */
  function WithFlag(item: Item, c: wchar): Item
    requires IsFlag(c)
  {
    if c == 48 then item.(pad := 48)
    else if c == 45 then item.(padBefore := false)
    else if c == 44 then item.(comma := true)
    else if c == 46 then item.(toField := true)
    else item.(long := true)
  }

  predicate IsDigit(c: wchar) {
    48 <= c <= 57
  }

  /** A decimal width is read in UINTN arithmetic. */
  function WidthValue(t: seq<wchar>, v: uint64): uint64 {
    if t != [] && IsDigit(t[0]) then WidthValue(t[1..], Word(v * 10 + (t[0] - 48))) else v
  }

  function AfterDigits(t: seq<wchar>): (rest: seq<wchar>)
    ensures |rest| <= |t|
  {
    if t != [] && IsDigit(t[0]) then AfterDigits(t[1..]) else t
  }

  /** n h e: an attribute for this field only; text is not affected. */
  predicate IsFieldAttribute(c: wchar) {
    c == 110 || c == 104 || c == 101
  }

  /** N H E */
  predicate IsAttribute(c: wchar) {
    c == 78 || c == 72 || c == 69
  }

  function AttributeOf(a: Attributes, c: wchar): nat
    requires IsAttribute(c)
  {
    if c == 78 then a.norm else if c == 72 then a.highlight else a.error
  }

  predicate TakesString(c: wchar) {
    c == 97 || c == 115
  }

  predicate TakesBits(c: wchar) {
    c == 99 || c == 88 || c == 120 || c == 117 || c == 100
  }

  /** g D f t r */
  predicate TakesObject(c: wchar) {
    c == 103 || c == 68 || c == 102 || c == 116 || c == 114
  }

  predicate TakesArg(c: wchar) {
    TakesString(c) || TakesBits(c) || TakesObject(c)
  }

  predicate Fits(c: wchar, arg: Arg) {
    match arg
    case Bits(_) => TakesBits(c)
    case String(_) => TakesString(c)
    case Object(_) => TakesObject(c)
  }

  function Low32(v: uint64): uint64 {
    v % 0x1_0000_0000
  }

  /** INT32 reading of the low half. */
  function Signed32(v: uint64): int64 {
    if Low32(v) < 0x8000_0000 then Low32(v) else Low32(v) - 0x1_0000_0000
  }

  /** The text of a conversion that takes an argument. */
  function ArgText(c: wchar, item: Item, arg: Arg): seq<wchar>
    requires Fits(c, arg)
  {
    match arg
    case String(s) => if s.None? then NULL_TEXT else s.value
    case Object(text) => text
    case Bits(v) =>
      if c == 99 then (if v % 0x1_0000 == 0 then [] else [v % 0x1_0000])
      else if c == 88 || c == 120 then HexText(if item.long then v else Low32(v))
      else if c == 117 then DecimalText(Signed(if item.long then v else Low32(v)), item.comma)
      else DecimalText(if item.long then Signed(v) else Signed32(v), item.comma)
  }

  /** X fixes the width and the padding. */
  function ItemFor(c: wchar, item: Item): Item {
    if c == 88 then item.(width := if item.long then 16 else 8, pad := 48) else item
  }

  function Repeat(c: wchar, n: nat): (t: seq<wchar>)
    ensures |t| == n
  {
    seq(n, _ => c)
  }

  /** The characters of a text that `PITEM` takes, and its final widths. */
  function Taken(text: seq<wchar>, item: Item): nat {
    if |text| < item.fieldWidth then |text| else item.fieldWidth
  }

  function FullWidth(text: seq<wchar>, item: Item): nat {
    if item.width < Taken(text, item) then Taken(text, item) else item.width
  }

  function Spaces(text: seq<wchar>, item: Item): nat {
    var field := if item.fieldWidth == NO_WIDTH then Taken(text, item) else item.fieldWidth;
    if field > FullWidth(text, item) then field - FullWidth(text, item) else 0
  }

  /** The field an item is printed in. */
  function Field(text: seq<wchar>, item: Item): seq<wchar> {
    var n := Taken(text, item);
    var body := Repeat(item.pad, FullWidth(text, item) - n) + text[..n];
    var spaces := Repeat(SPACE, Spaces(text, item));
    if item.padBefore then spaces + body else body + spaces
  }

  /** The outcome of a directive: its text and what is left. */
  datatype Outcome = Outcome(text: seq<wchar>, rest: seq<wchar>, args: seq<Arg>)

  /** A directive, from behind its '%'. None when the format ends too early or an argument is
      missing or of the wrong kind. */
  function Directive(t: seq<wchar>, item: Item, args: seq<Arg>, a: Attributes): (r: Option<Outcome>)
    ensures r.Some? ==> |r.value.rest| < |t|
    decreases |t|
  {
    if t == [] then None
    else
      var c, rest := t[0], t[1..];
      if IsFlag(c) then Directive(rest, WithFlag(item, c), args, a)
      else if c == 42 then
        if args != [] && args[0].Bits? then Directive(rest, SetWidth(item, args[0].bits), args[1..], a) else None
      else if IsDigit(c) then Directive(AfterDigits(t), SetWidth(item, WidthValue(t, 0)), args, a)
      else if IsFieldAttribute(c) then Directive(rest, item, args, a)
      else if IsAttribute(c) then
        if AttributeOf(a, c) != 0 then Some(Outcome([], rest, args)) else Directive(rest, item, args, a)
      else if c == PERCENT then Some(Outcome(Field([PERCENT], item), rest, args))
      else if !TakesArg(c) then Some(Outcome(Field([QUESTION], item), rest, args))
      else if args != [] && Fits(c, args[0]) then
        Some(Outcome(Field(ArgText(c, item, args[0]), ItemFor(c, item)), rest, args[1..]))
      else None
  }

  /** The text of a whole format; None unless every directive is complete. */
  function Expand(t: seq<wchar>, args: seq<Arg>, a: Attributes): Option<seq<wchar>>
    decreases |t|
  {
    if t == [] then Some([])
    else if t[0] != PERCENT then Prefixed([t[0]], Expand(t[1..], args, a))
    else
      var d := Directive(t[1..], NEW_ITEM, args, a);
      if d.None? then None else Prefixed(d.value.text, Expand(d.value.rest, d.value.args, a))
  }

  function Prefixed(s: seq<wchar>, rest: Option<seq<wchar>>): Option<seq<wchar>> {
    if rest.None? then None else Some(s + rest.value)
  }

  /** Every newline goes out as a carriage return and a newline. */
  function Crlf(t: seq<wchar>): seq<wchar> {
    if t == [] then [] else (if t[0] == NEWLINE then [RETURN, NEWLINE] else [t[0]]) + Crlf(t[1..])
  }

  lemma {:induction false} CrlfConcat(a: seq<wchar>, b: seq<wchar>)
    ensures Crlf(a + b) == Crlf(a) + Crlf(b)
  {
    if a == [] {
      assert a + b == b;
    } else {
      assert (a + b)[1..] == a[1..] + b;
      CrlfConcat(a[1..], b);
    }
  }

  lemma {:induction false} CrlfPrefix(a: seq<wchar>, k: nat)
    requires k <= |a|
    ensures |Crlf(a[..k])| <= |Crlf(a)|
  {
    assert a == a[..k] + a[k..];
    CrlfConcat(a[..k], a[k..]);
  }

  // ---------------------------------------------------------------------------
  // No text contains a NUL
  // ---------------------------------------------------------------------------

  predicate NoNul(t: seq<wchar>) {
    forall i | 0 <= i < |t| :: t[i] != 0
  }

  /** Strings end at their NUL, so texts have none. */
  predicate GoodArg(arg: Arg) {
    match arg
    case Bits(_) => true
    case String(s) => s.Some? ==> NoNul(s.value)
    case Object(text) => NoNul(text)
  }

  predicate GoodArgs(args: seq<Arg>) {
    forall k | 0 <= k < |args| :: GoodArg(args[k])
  }

  lemma {:induction false} GroupedNoNul(ds: seq<int>)
    requires forall k | 0 <= k < |ds| :: 0 <= ds[k] < 10
    ensures NoNul(Grouped(ds))
  {
    if |ds| > 3 {
      GroupedNoNul(ds[..|ds| - 3]);
    }
  }

  lemma ArgTextNoNul(c: wchar, item: Item, arg: Arg)
    requires Fits(c, arg) && GoodArg(arg)
    ensures NoNul(ArgText(c, item, arg))
  {
    if arg.Bits? && c != 99 {
      var v := arg.bits;
      if c == 88 || c == 120 {
        HexNoNul(if item.long then v else Low32(v));
      } else {
        DecimalNoNul(if c == 117 then Signed(if item.long then v else Low32(v))
                     else if item.long then Signed(v) else Signed32(v), item.comma);
      }
    }
  }

  lemma HexCharsNoNul(ds: seq<int>)
    requires forall k | 0 <= k < |ds| :: 0 <= ds[k] < 16
    ensures NoNul(HexChars(ds))
  {
    forall d | 0 <= d < 16 ensures HexChar(d) != 0 {
      assert HEX[d] != 0;
    }
  }

  lemma HexNoNul(v: uint64)
    ensures NoNul(HexText(v))
  {
    if v != 0 {
      NumeralDigits(v, 16);
      HexCharsNoNul(Numeral(v, 16));
    }
  }

  lemma DecimalNoNul(v: int64, comma: bool)
    ensures NoNul(DecimalText(v, comma))
  {
    NumeralDigits(Abs(v), 10);
    GroupedNoNul(Numeral(Abs(v), 10));
  }

  predicate GoodItem(item: Item) {
    item.pad != 0 && item.pad != NEWLINE
  }

  // ---------------------------------------------------------------------------
  // Fields and their newlines
  // ---------------------------------------------------------------------------

  lemma {:induction false} CrlfRepeat(c: wchar, n: nat)
    requires c != NEWLINE
    ensures Crlf(Repeat(c, n)) == Repeat(c, n)
  {
    if n > 0 {
      assert Repeat(c, n)[1..] == Repeat(c, n - 1);
      CrlfRepeat(c, n - 1);
      assert [c] + Repeat(c, n - 1) == Repeat(c, n);
    }
  }

  /** What a field sends out: only the text itself can hold newlines. */
  lemma CrlfField(text: seq<wchar>, item: Item)
    requires GoodItem(item)
    ensures var n := Taken(text, item);
            var spaces, pads := Repeat(SPACE, Spaces(text, item)), Repeat(item.pad, FullWidth(text, item) - n);
            Crlf(Field(text, item)) == if item.padBefore then spaces + pads + Crlf(text[..n])
                                       else pads + Crlf(text[..n]) + spaces
  {
    var n := Taken(text, item);
    var spaces, pads := Repeat(SPACE, Spaces(text, item)), Repeat(item.pad, FullWidth(text, item) - n);
    CrlfRepeat(SPACE, Spaces(text, item));
    CrlfRepeat(item.pad, FullWidth(text, item) - n);
    CrlfConcat(pads, text[..n]);
    CrlfConcat(spaces, pads + text[..n]);
    CrlfConcat(pads + text[..n], spaces);
    assert spaces + (pads + Crlf(text[..n])) == spaces + pads + Crlf(text[..n]);
  }
}
