/** Formats of `lib/print.c` and what they print, character by character. */
module PrintExamples {
  import opened Basics
  import opened Digits
  import opened WideStrings
  import opened Numbers
  import opened PrintFormat
  import opened PrintedNumbers

  lemma {:induction false} NumeralStep(v: nat, b: radix)
    requires v >= b
    ensures Numeral(v, b) == Numeral(v / b, b) + [v % b]
  {}

  lemma NumeralOfDigit(v: nat, b: radix)
    requires 0 < v < b
    ensures Numeral(v, b) == [v]
  {
    assert LowDigits(v, b) == [v] + LowDigits(v / b, b);
    assert v / b == 0;
    assert Reversed([v]) == Reversed([]) + [v];
  }

  lemma FortyTwo()
    ensures Numeral(42, 10) == [4, 2] && DecimalText(42, false) == [52, 50]
  {
    NumeralStep(42, 10);
    NumeralOfDigit(4, 10);
  }

  /** "-1,234" */
  lemma AThousand()
    ensures DecimalText(-1234, true) == [45, 49, 44, 50, 51, 52]
  {
    hide LowDigits;
    var ds := [1, 2, 3, 4];
    assert Numeral(1234, 10) == ds by {
      NumeralStep(1234, 10);
      NumeralStep(123, 10);
      NumeralStep(12, 10);
      NumeralOfDigit(1, 10);
    }
    assert ds[..1] == [1] && ds[1..] == [2, 3, 4];
    assert Grouped([1]) == [49];
    assert Grouped(ds) == [49] + [44] + DigitChars([2, 3, 4]);
  }

  lemma AnHexNumber()
    ensures HexText(0xBEEF) == [66, 69, 69, 70]
  {
    NumeralStep(0xBEEF, 16);
    NumeralStep(0xBEE, 16);
    NumeralStep(0xBE, 16);
    NumeralOfDigit(0xB, 16);
    assert Numeral(0xBEEF, 16) == [11, 14, 14, 15];
  }

  lemma PlainField(text: seq<wchar>)
    requires |text| < 0xFFFF_FFFF
    ensures Field(text, NEW_ITEM) == text
  {
    FieldForm(text, NEW_ITEM);
  }

  /** A format of one directive, when that is complete. */
  lemma OneDirective(fmt: seq<wchar>, t: seq<wchar>, args: seq<Arg>, a: Attributes, text: seq<wchar>)
    requires fmt == [37] + t && Directive(t, NEW_ITEM, args, a) == Some(Outcome(text, [], []))
    ensures Expand(fmt, args, a) == Some(text)
  {
    assert fmt[1..] == t;
    assert Expand([], [], a) == Some([]);
    assert text + [] == text;
  }

  lemma LongField(text: seq<wchar>, item: Item)
    requires |text| < 0xFFFF_FFFF && item.width == 0 && item.fieldWidth == 0xFFFF_FFFF_FFFF_FFFF
    ensures Field(text, item) == text
  {
    FieldForm(text, item);
  }

  /** One character of a directive read: a flag, a digit of a width, or a '*'. */
  lemma FlagRead(flag: wchar, t: seq<wchar>, item: Item, args: seq<Arg>, a: Attributes)
    requires flag in [48, 45, 44, 46, 108]
    ensures Directive([flag] + t, item, args, a) == Directive(t, WithFlag(item, flag), args, a)
  {
    assert ([flag] + t)[1..] == t;
  }

  lemma DigitRead(d: wchar, t: seq<wchar>, item: Item, args: seq<Arg>, a: Attributes)
    requires 49 <= d <= 57 && t != [] && !IsDigit(t[0])
    ensures Directive([d] + t, item, args, a) == Directive(t, SetWidth(item, d - 48), args, a)
  {
    var s := [d] + t;
    assert s[1..] == t;
    assert AfterDigits(s) == AfterDigits(t) == t;
    assert WidthValue(s, 0) == WidthValue(t, d - 48) == d - 48;
  }

  lemma StarRead(v: uint64, t: seq<wchar>, item: Item, args: seq<Arg>, a: Attributes)
    ensures Directive([42] + t, item, [Bits(v)] + args, a) == Directive(t, SetWidth(item, v), args, a)
  {
    assert ([42] + t)[1..] == t && ([Bits(v)] + args)[1..] == args;
  }

  lemma LastRead(c: wchar, item: Item, v: uint64, text: seq<wchar>, a: Attributes)
    requires c in [120, 88, 100, 117] && text == Field(ArgText(c, item, Bits(v)), ItemFor(c, item))
    ensures Directive([c], item, [Bits(v)], a) == Some(Outcome(text, [], []))
  {
    hide Field, ArgText, ItemFor;
    assert [c][1..] == [] && [Bits(v)][1..] == [];
  }

  /** "%x" and "%lx": the text reads back as the low 32 bits, and as the number. */
  lemma HexFormats(v: uint64, a: Attributes) returns (x: seq<wchar>, lx: seq<wchar>)
    ensures Expand([37, 120], [Bits(v)], a) == Some(x) && ReadNumber(x, 16) == v % 0x1_0000_0000
    ensures Expand([37, 108, 120], [Bits(v)], a) == Some(lx) && ReadNumber(lx, 16) == v
  {
    hide Directive, Expand, ReadNumber, Field, HexText;
    var long := NEW_ITEM.(long := true);
    x, lx := ArgText(120, NEW_ITEM, Bits(v)), ArgText(120, long, Bits(v));
    HexConversion(120, NEW_ITEM, v);
    HexConversion(120, long, v);
    HexTextForm(v % 0x1_0000_0000);
    HexTextForm(v);
    LongField(x, NEW_ITEM);
    LongField(lx, long);
    LastRead(120, NEW_ITEM, v, x, a);
    LastRead(120, long, v, lx, a);
    FlagRead(108, [120], NEW_ITEM, [Bits(v)], a);
    OneDirective([37, 120], [120], [Bits(v)], a, x);
    OneDirective([37, 108, 120], [108] + [120], [Bits(v)], a, lx);
  }

  /** "%X" and "%lX": the same, in exactly 8 and 16 digits. */
  lemma PaddedHexFormats(v: uint64, a: Attributes) returns (x: seq<wchar>, lx: seq<wchar>)
    ensures Expand([37, 88], [Bits(v)], a) == Some(x) && |x| == 8 && ReadNumber(x, 16) == v % 0x1_0000_0000
    ensures Expand([37, 108, 88], [Bits(v)], a) == Some(lx) && |lx| == 16 && ReadNumber(lx, 16) == v
  {
    hide Directive, Expand, ReadNumber, Field, HexText, ArgText, ItemFor;
    var long := NEW_ITEM.(long := true);
    x := Field(ArgText(88, NEW_ITEM, Bits(v)), ItemFor(88, NEW_ITEM));
    lx := Field(ArgText(88, long, Bits(v)), ItemFor(88, long));
    PaddedHex(NEW_ITEM, v);
    PaddedHex(long, v);
    LastRead(88, NEW_ITEM, v, x, a);
    LastRead(88, long, v, lx, a);
    FlagRead(108, [88], NEW_ITEM, [Bits(v)], a);
    OneDirective([37, 88], [88], [Bits(v)], a, x);
    OneDirective([37, 108, 88], [108] + [88], [Bits(v)], a, lx);
  }

  /** "%d" and "%,d", of 42 and of -1234. */
  lemma DecimalFormats(a: Attributes)
    ensures Expand([37, 100], [Bits(42)], a) == Some([52, 50])
    ensures Expand([37, 44, 100], [Bits(0xFFFF_FB2E)], a) == Some([45, 49, 44, 50, 51, 52])
  {
    hide Directive, Expand, Field, DecimalText;
    FortyTwo();
    AThousand();
    PlainField([52, 50]);
    LastRead(100, NEW_ITEM, 42, [52, 50], a);
    OneDirective([37, 100], [100], [Bits(42)], a, [52, 50]);
    var item, text := NEW_ITEM.(comma := true), [45, 49, 44, 50, 51, 52];
    LongField(text, item);
    LastRead(100, item, 0xFFFF_FB2E, text, a);
    FlagRead(44, [100], NEW_ITEM, [Bits(0xFFFF_FB2E)], a);
    OneDirective([37, 44, 100], [44] + [100], [Bits(0xFFFF_FB2E)], a, text);
  }

  lemma FortyTwoIn(item: Item, text: seq<wchar>, a: Attributes)
    requires text == Field([52, 50], item) && !item.comma && !item.long
    ensures Directive([100], item, [Bits(42)], a) == Some(Outcome(text, [], []))
  {
    hide Directive, Field, DecimalText, Expand;
    FortyTwo();
    LastRead(100, item, 42, text, a);
  }

  /** "%05d" and "%*d" of 42. */
  lemma WidthFormats(a: Attributes)
    ensures Expand([37, 48, 53, 100], [Bits(42)], a) == Some([48, 48, 48, 52, 50])
    ensures Expand([37, 42, 100], [Bits(4), Bits(42)], a) == Some([32, 32, 52, 50])
  {
    hide Directive, Expand, Field;
    var zero, four := NEW_ITEM.(pad := 48), NEW_ITEM.(width := 4);
    FieldForm([52, 50], zero.(width := 5));
    FieldForm([52, 50], four);
    assert Field([52, 50], zero.(width := 5)) == [48, 48, 48, 52, 50] && Field([52, 50], four) == [32, 32, 52, 50];
    FortyTwoIn(zero.(width := 5), [48, 48, 48, 52, 50], a);
    FortyTwoIn(four, [32, 32, 52, 50], a);
    DigitRead(53, [100], zero, [Bits(42)], a);
    FlagRead(48, [53] + [100], NEW_ITEM, [Bits(42)], a);
    StarRead(4, [100], NEW_ITEM, [Bits(42)], a);
    OneDirective([37, 48, 53, 100], [48] + ([53] + [100]), [Bits(42)], a, [48, 48, 48, 52, 50]);
    assert [Bits(4)] + [Bits(42)] == [Bits(4), Bits(42)];
    OneDirective([37, 42, 100], [42] + [100], [Bits(4), Bits(42)], a, [32, 32, 52, 50]);
  }

  /** "%4.6d" and "%-4.6d" of 42: the blanks of the field width go in front, or behind with '-'. */
  lemma FieldFormats(a: Attributes)
    ensures Expand([37, 52, 46, 54, 100], [Bits(42)], a) == Some([32, 32, 32, 32, 52, 50])
    ensures Expand([37, 45, 52, 46, 54, 100], [Bits(42)], a) == Some([32, 32, 52, 50, 32, 32])
  {
    hide Directive, Expand;
    var t := [52] + ([46] + ([54] + [100]));
    FieldFormat(NEW_ITEM, [32, 32, 32, 32, 52, 50], a);
    FieldFormat(NEW_ITEM.(padBefore := false), [32, 32, 52, 50, 32, 32], a);
    FlagRead(45, t, NEW_ITEM, [Bits(42)], a);
    OneDirective([37, 52, 46, 54, 100], t, [Bits(42)], a, [32, 32, 32, 32, 52, 50]);
    OneDirective([37, 45, 52, 46, 54, 100], [45] + t, [Bits(42)], a, [32, 32, 52, 50, 32, 32]);
  }

  lemma FieldFormat(item: Item, text: seq<wchar>, a: Attributes)
    requires item == NEW_ITEM.(padBefore := item.padBefore)
    requires text == if item.padBefore then [32, 32, 32, 32, 52, 50] else [32, 32, 52, 50, 32, 32]
    ensures Directive([52] + ([46] + ([54] + [100])), item, [Bits(42)], a) == Some(Outcome(text, [], []))
  {
    hide Field, Directive;
    var last := item.(width := 4, toField := true, fieldWidth := 6);
    FieldForm([52, 50], last);
    assert Field([52, 50], last) == text;
    FortyTwoIn(last, text, a);
    DigitRead(54, [100], item.(width := 4, toField := true), [Bits(42)], a);
    FlagRead(46, [54] + [100], item.(width := 4), [Bits(42)], a);
    DigitRead(52, [46] + ([54] + [100]), item, [Bits(42)], a);
  }

  /** "%c" of 'A', "%s" and "%a" of a text, "%s" of NULL, and an object under each of its conversions. */
  lemma TextFormats(text: seq<wchar>, c: wchar, a: Attributes)
    requires |text| < 0xFFFF_FFFF && c in [103, 68, 102, 116, 114]
    ensures Expand([37, 99], [Bits(65)], a) == Some([65])
    ensures Expand([37, 115], [String(Some(text))], a) == Expand([37, 97], [String(Some(text))], a) == Some(text)
    ensures Expand([37, 115], [String(None)], a) == Some([40, 110, 117, 108, 108, 41])
    ensures Expand([37, c], [Object(text)], a) == Some(text)
  {
    hide Expand;
    TakesOne(99, Bits(65), [65], a);
    TakesOne(115, String(Some(text)), text, a);
    TakesOne(97, String(Some(text)), text, a);
    TakesOne(115, String(None), [40, 110, 117, 108, 108, 41], a);
    TakesOne(c, Object(text), text, a);
  }

  lemma TakesOne(c: wchar, arg: Arg, text: seq<wchar>, a: Attributes)
    requires c in [99, 115, 97, 103, 68, 102, 116, 114] && Fits(c, arg)
    requires ArgText(c, NEW_ITEM, arg) == text && |text| < 0xFFFF_FFFF
    ensures Expand([37, c], [arg], a) == Some(text)
  {
    PlainField(text);
    assert [c][1..] == [] && [arg][1..] == [];
    OneDirective([37, c], [c], [arg], a, text);
  }

  /** "%%", and "%q", which is no conversion; the attributes of a field and, printing to a string, of the
      output, which show nothing. */
  lemma OtherFormats(c: wchar)
    requires c in [110, 104, 101, 78, 72, 69]
    ensures Expand([37, 37], [], Attributes(0, 0, 0)) == Some([37])
    ensures Expand([37, 113], [], Attributes(0, 0, 0)) == Some([63])
    ensures Expand([37, c, 37], [], Attributes(0, 0, 0)) == Some([37])
    ensures Expand([37, 78], [], Attributes(1, 0, 0)) == Some([])
  {
    hide Expand, Field;
    var a := Attributes(0, 0, 0);
    PlainField([37]);
    PlainField([63]);
    assert [37][1..] == [] && [113][1..] == [] && [c, 37][1..] == [37] && [78][1..] == [];
    OneDirective([37, 37], [37], [], a, [37]);
    OneDirective([37, 113], [113], [], a, [63]);
    OneDirective([37, c, 37], [c, 37], [], a, [37]);
    OneDirective([37, 78], [78], [], Attributes(1, 0, 0), []);
  }

  /** "%c" of any number: its low 16 bits, and nothing when they are 0. */
  lemma CharacterFormat(v: uint64, a: Attributes)
    ensures Expand([37, 99], [Bits(v)], a) == Some(if v % 0x1_0000 == 0 then [] else [v % 0x1_0000])
  {
    TakesOne(99, Bits(v), if v % 0x1_0000 == 0 then [] else [v % 0x1_0000], a);
  }

  /** "%N", "%H" and "%E" end at once when the output device has that attribute, and are read over when it
      has not. */
  lemma AttributeFormats(c: wchar, a: Attributes)
    requires c in [78, 72, 69]
    ensures var has := if c == 78 then a.norm != 0 else if c == 72 then a.highlight != 0 else a.error != 0;
            Expand([37, c, 37], [], a) == if has then None else Some([37])
  {
    hide Field;
    PlainField([37]);
    assert [37][1..] == [] && [c, 37][1..] == [37] && [37, c, 37][1..] == [c, 37];
    var has := if c == 78 then a.norm != 0 else if c == 72 then a.highlight != 0 else a.error != 0;
    assert Directive([37], NEW_ITEM, [], a) == Some(Outcome([37], [], []));
    assert Directive([], NEW_ITEM, [], a) == None;
    if has {
      assert Directive([c, 37], NEW_ITEM, [], a) == Some(Outcome([], [37], []));
      assert Expand([37], [], a) == None;
    } else {
      assert Directive([c, 37], NEW_ITEM, [], a) == Some(Outcome([37], [], []));
      OneDirective([37, c, 37], [c, 37], [], a, [37]);
    }
  }

  /** A width digit by digit. */
  lemma WidthIs(c: wchar, t: seq<wchar>, v: uint64)
    ensures WidthValue([], v) == v
    ensures 48 <= c <= 57 ==>
              WidthValue([c] + t, v) == WidthValue(t, Word(v * 10 + (c - 48))) && AfterDigits([c] + t) == AfterDigits(t)
    ensures !(48 <= c <= 57) ==> WidthValue([c] + t, v) == v && AfterDigits([c] + t) == [c] + t
  {
    assert ([c] + t)[1..] == t;
  }

  /** A carriage return goes before each newline, and nowhere else. */
  lemma LinesOut(t: seq<wchar>, c: wchar)
    ensures Crlf([]) == [] && Crlf([10] + t) == [13, 10] + Crlf(t)
    ensures c != 10 ==> Crlf([c] + t) == [c] + Crlf(t)
  {
    assert ([c] + t)[1..] == t && ([10] + t)[1..] == t;
  }
}
