/** Formats of `lib/print.c` as they are written: plain characters and directives with flags, a
    width and a field width. Their expansion is the rendering of the pieces, from left to right. */
module FormatPieces {
  import opened Basics
  import opened Digits
  import opened WideStrings
  import opened Numbers
  import opened PrintFormat

  const ZERO_FLAG: wchar := 48
  const LEFT_FLAG: wchar := 45
  const COMMA_FLAG: wchar := 44
  const LONG_FLAG: wchar := 108
  const DOT: wchar := 46
  const STAR: wchar := 42

  /** A width: its digits, where 0 is not written, or a '*' that takes an argument. */
  datatype Width = Digits(value: uint64) | Star(value: uint64)

  /** %[flags][width][.field]conversion, and the directives that set an attribute. A conversion without
      an argument is a '%' or one that is unknown. */
  datatype Piece =
    | Plain(c: wchar)
    | Attribute(c: wchar)
    | Show(flags: seq<wchar>, width: Width, field: Option<Width>, conversion: wchar, arg: Option<Arg>)

  /** The flags, and what leaves the text alone: attributes of one field, and of the output where it has
      none. */
  predicate MayPrecede(c: wchar, a: Attributes) {
    || c in [ZERO_FLAG, LEFT_FLAG, COMMA_FLAG, LONG_FLAG]
    || IsFieldAttribute(c)
    || (IsAttribute(c) && AttributeOf(a, c) == 0)
  }

  /** None of the characters that mean anything in a directive. */
  predicate IsUnknown(c: wchar) {
    && !IsFlag(c) && c != STAR && !IsDigit(c) && !IsFieldAttribute(c) && !IsAttribute(c)
    && c != PERCENT && !TakesArg(c)
  }

  /** What can close a directive. */
  predicate Closes(c: wchar, arg: Option<Arg>) {
    match arg
    case None => c == PERCENT || IsUnknown(c)
    case Some(x) => Fits(c, x)
  }

  predicate ValidPiece(p: Piece, a: Attributes) {
    match p
    case Plain(c) => c != PERCENT
    case Attribute(c) => IsAttribute(c) && AttributeOf(a, c) != 0
    case Show(flags, _, field, c, arg) =>
      && (forall i | 0 <= i < |flags| :: MayPrecede(flags[i], a))
      && (field.Some? && field.value.Digits? ==> field.value.value != 0) && Closes(c, arg)
  }

  predicate ValidPieces(ps: seq<Piece>, a: Attributes) {
    forall k | 0 <= k < |ps| :: ValidPiece(ps[k], a)
  }

  function DigitsOf(w: uint64): seq<wchar> {
    DigitChars(Numeral(w, 10))
  }

  function WidthText(w: Width): seq<wchar> {
    match w
    case Digits(v) => DigitsOf(v)
    case Star(_) => [STAR]
  }

  function WidthArgs(w: Width): seq<Arg> {
    if w.Star? then [Bits(w.value)] else []
  }

  function PieceSource(p: Piece): seq<wchar> {
    match p
    case Plain(c) => [c]
    case Attribute(c) => [PERCENT, c]
    case Show(flags, w, field, c, _) =>
      [PERCENT] + (flags + (WidthText(w) + (FieldSource(field) + [c])))
  }

  function FieldSource(field: Option<Width>): seq<wchar> {
    match field
    case None => []
    case Some(f) => [DOT] + WidthText(f)
  }

  function FieldArgs(field: Option<Width>): seq<Arg> {
    if field.None? then [] else WidthArgs(field.value)
  }

  /** What the flags and widths mean, in whatever order and however often the flags come. */
  function PieceItem(flags: seq<wchar>, width: uint64, field: Option<Width>): Item {
    Item(width, if field.Some? then field.value.value else NO_WIDTH, field.Some?,
         if ZERO_FLAG in flags then ZERO_FLAG else SPACE,
         LEFT_FLAG !in flags, COMMA_FLAG in flags, LONG_FLAG in flags)
  }

  function PieceText(p: Piece, a: Attributes): seq<wchar>
    requires ValidPiece(p, a)
  {
    match p
    case Plain(c) => [c]
    case Attribute(_) => []
    case Show(flags, w, field, c, arg) =>
      Closed(c, PieceItem(flags, w.value, field), arg)
  }

  /** A conversion in its field; an unknown one shows as a question mark. */
  function Closed(c: wchar, item: Item, arg: Option<Arg>): seq<wchar>
    requires Closes(c, arg)
  {
    match arg
    case None => Field([if c == PERCENT then PERCENT else QUESTION], item)
    case Some(x) => Field(ArgText(c, item, x), ItemFor(c, item))
  }

  function ClosingArgs(arg: Option<Arg>): seq<Arg> {
    if arg.None? then [] else [arg.value]
  }

  /** The arguments in the order they are taken: widths given by '*' first. */
  function PieceArgs(p: Piece): seq<Arg> {
    if p.Show? then WidthArgs(p.width) + (FieldArgs(p.field) + ClosingArgs(p.arg)) else []
  }

  function Source(ps: seq<Piece>): seq<wchar> {
    if ps == [] then [] else PieceSource(ps[0]) + Source(ps[1..])
  }

  function Args(ps: seq<Piece>): seq<Arg> {
    if ps == [] then [] else PieceArgs(ps[0]) + Args(ps[1..])
  }

  function Rendered(ps: seq<Piece>, a: Attributes): seq<wchar>
    requires ValidPieces(ps, a)
  {
    if ps == [] then [] else PieceText(ps[0], a) + Rendered(ps[1..], a)
  }

  // ---------------------------------------------------------------------------
  // Flags
  // ---------------------------------------------------------------------------

  function WithFlags(item: Item, flags: seq<wchar>): Item
    decreases |flags|
  {
    if flags == [] then item
    else WithFlags(if IsFlag(flags[0]) then WithFlag(item, flags[0]) else item, flags[1..])
  }

  lemma {:induction false} FlagsRead(flags: seq<wchar>, rest: seq<wchar>, item: Item, args: seq<Arg>, a: Attributes)
    requires forall i | 0 <= i < |flags| :: MayPrecede(flags[i], a)
    ensures Directive(flags + rest, item, args, a) == Directive(rest, WithFlags(item, flags), args, a)
    decreases |flags|
  {
    if flags == [] {
      assert flags + rest == rest;
    } else {
      assert (flags + rest)[1..] == flags[1..] + rest;
      FlagsRead(flags[1..], rest, if IsFlag(flags[0]) then WithFlag(item, flags[0]) else item, args, a);
    }
  }

  /** Each flag sets its own property, so order and repetition do not matter. */
  lemma {:induction false} FlagsMean(item: Item, flags: seq<wchar>)
    requires DOT !in flags
    ensures WithFlags(item, flags)
            == item.(pad := if ZERO_FLAG in flags then ZERO_FLAG else item.pad,
                     padBefore := item.padBefore && LEFT_FLAG !in flags,
                     comma := item.comma || COMMA_FLAG in flags,
                     long := item.long || LONG_FLAG in flags)
    decreases |flags|
  {
    if flags != [] {
      var f, rest := flags[0], flags[1..];
      InCons(f, rest, ZERO_FLAG);
      InCons(f, rest, LEFT_FLAG);
      InCons(f, rest, COMMA_FLAG);
      InCons(f, rest, LONG_FLAG);
      InCons(f, rest, DOT);
      assert flags == [f] + rest;
      FlagsMean(if IsFlag(f) then WithFlag(item, f) else item, rest);
    }
  }

  lemma InCons(f: wchar, rest: seq<wchar>, c: wchar)
    ensures c in [f] + rest <==> c == f || c in rest
  {}

  // ---------------------------------------------------------------------------
  // Widths
  // ---------------------------------------------------------------------------

  predicate EndsWidth(rest: seq<wchar>) {
    rest == [] || !IsDigit(rest[0])
  }

  lemma {:induction false} DigitsRead(done: seq<int>, ds: seq<int>, rest: seq<wchar>)
    requires (forall k | 0 <= k < |ds| :: 0 <= ds[k] < 10) && EndsWidth(rest)
    ensures AfterDigits(DigitChars(ds) + rest) == rest
    ensures WidthValue(DigitChars(ds) + rest, Word(Value(done, 10))) == Word(Value(done + ds, 10))
    decreases |ds|
  {
    if ds == [] {
      assert DigitChars(ds) + rest == rest && done + ds == done;
    } else {
      var t := DigitChars(ds) + rest;
      assert t[1..] == DigitChars(ds[1..]) + rest && t[0] == DigitChar(ds[0]);
      WrapStep(Value(done, 10), 10, ds[0]);
      ValueSnoc(done, ds[0], 10);
      DigitsRead(done + [ds[0]], ds[1..], rest);
      assert done + [ds[0]] + ds[1..] == done + ds;
    }
  }

  lemma FirstDigit(ds: seq<int>, rest: seq<wchar>)
    requires ds != [] && 0 < ds[0] < 10
    ensures var t := DigitChars(ds) + rest; t != [] && IsDigit(t[0]) && !IsFlag(t[0])
  {
    assert (DigitChars(ds) + rest)[0] == DigitChar(ds[0]);
  }

  lemma WidthOf(w: uint64, rest: seq<wchar>)
    requires w > 0 && EndsWidth(rest)
    ensures var t := DigitsOf(w) + rest;
            t != [] && IsDigit(t[0]) && !IsFlag(t[0]) && AfterDigits(t) == rest && WidthValue(t, 0) == w
  {
    var ds := Numeral(w, 10);
    assert forall k | 0 <= k < |ds| :: 0 <= ds[k] < 10 by {
      NumeralDigits(w, 10);
    }
    assert ds != [] && ds[0] != 0 by {
      NoLeadingZero(w, 10);
    }
    FirstDigit(ds, rest);
    assert Word(Value([] + ds, 10)) == w by {
      assert [] + ds == ds;
      ValueOfNumeral(w, 10);
      WordOfItself(w);
    }
    WordOfItself(0);
    assert Value([], 10) == 0;
    DigitsRead([], ds, rest);
  }

  lemma WordOfItself(w: uint64)
    ensures Word(w) == w
  {}

  lemma DigitsDirective(t: seq<wchar>, item: Item, args: seq<Arg>, a: Attributes)
    requires t != [] && IsDigit(t[0]) && !IsFlag(t[0])
    ensures Directive(t, item, args, a) == Directive(AfterDigits(t), SetWidth(item, WidthValue(t, 0)), args, a)
  {}

  lemma WidthRead(w: Width, rest: seq<wchar>, item: Item, args: seq<Arg>, a: Attributes)
    requires EndsWidth(rest)
    ensures Directive(WidthText(w) + rest, item, WidthArgs(w) + args, a)
            == Directive(rest, if w == Digits(0) then item else SetWidth(item, w.value), args, a)
  {
    match w
    case Digits(v) =>
      assert WidthArgs(w) + args == args;
      if v == 0 {
        assert WidthText(w) + rest == rest;
      } else {
        WidthOf(v, rest);
        DigitsDirective(DigitsOf(v) + rest, item, args, a);
      }
    case Star(v) =>
      assert (WidthText(w) + rest)[1..] == rest && (WidthArgs(w) + args)[1..] == args;
  }

  lemma DotRead(rest: seq<wchar>, item: Item, args: seq<Arg>, a: Attributes)
    ensures Directive([DOT] + rest, item, args, a) == Directive(rest, item.(toField := true), args, a)
  {
    assert ([DOT] + rest)[1..] == rest;
  }

  lemma ConversionRead(c: wchar, rest: seq<wchar>, item: Item, arg: Option<Arg>, args: seq<Arg>, a: Attributes)
    requires Closes(c, arg)
    ensures Directive([c] + rest, item, ClosingArgs(arg) + args, a) == Some(Outcome(Closed(c, item, arg), rest, args))
  {
    assert ([c] + rest)[1..] == rest;
    match arg
    case None => assert ClosingArgs(arg) + args == args;
    case Some(x) => assert ([x] + args)[1..] == args;
  }

  // ---------------------------------------------------------------------------
  // Pieces
  // ---------------------------------------------------------------------------

  lemma FieldRead(field: Option<Width>, rest: seq<wchar>, item: Item, args: seq<Arg>, a: Attributes)
    requires EndsWidth(rest) && (field.Some? && field.value.Digits? ==> field.value.value != 0)
    ensures Directive(FieldSource(field) + rest, item, FieldArgs(field) + args, a)
            == Directive(rest, if field.None? then item else item.(toField := true, fieldWidth := field.value.value), args, a)
  {
    match field
    case None =>
      assert FieldSource(None) + rest == rest && FieldArgs(None) + args == args;
    case Some(f) =>
      assert FieldSource(field) + rest == [DOT] + (WidthText(f) + rest);
      DotRead(WidthText(f) + rest, item, WidthArgs(f) + args, a);
      WidthRead(f, rest, item.(toField := true), args, a);
  }

  /** The flags set their part of the item. */
  lemma FlagsPart(flags: seq<wchar>, rest: seq<wchar>, args: seq<Arg>, a: Attributes)
    requires forall i | 0 <= i < |flags| :: MayPrecede(flags[i], a)
    ensures Directive(flags + rest, NEW_ITEM, args, a) == Directive(rest, PieceItem(flags, 0, None), args, a)
  {
    FlagsRead(flags, rest, NEW_ITEM, args, a);
    FlagsMean(NEW_ITEM, flags);
  }

  /** The width and the field width set theirs. */
  lemma WidthsPart(flags: seq<wchar>, w: Width, field: Option<Width>, rest: seq<wchar>, args: seq<Arg>, a: Attributes)
    requires (field.Some? && field.value.Digits? ==> field.value.value != 0) && EndsWidth(rest)
    ensures Directive(WidthText(w) + (FieldSource(field) + rest), PieceItem(flags, 0, None),
                      WidthArgs(w) + (FieldArgs(field) + args), a)
            == Directive(rest, PieceItem(flags, w.value, field), args, a)
  {
    var more := FieldSource(field) + rest;
    assert EndsWidth(more);
    WidthRead(w, more, PieceItem(flags, 0, None), FieldArgs(field) + args, a);
    FieldRead(field, rest, PieceItem(flags, w.value, None), args, a);
  }

  lemma SourceForm(p: Piece, rest: seq<wchar>)
    requires p.Show?
    ensures (PieceSource(p) + rest)[1..]
            == p.flags + (WidthText(p.width) + (FieldSource(p.field) + ([p.conversion] + rest)))
  {}

  lemma ArgsForm(p: Piece, args: seq<Arg>)
    requires p.Show?
    ensures PieceArgs(p) + args == WidthArgs(p.width) + (FieldArgs(p.field) + (ClosingArgs(p.arg) + args))
  {}

  lemma ShowRead(p: Piece, rest: seq<wchar>, args: seq<Arg>, a: Attributes)
    requires p.Show? && ValidPiece(p, a)
    ensures Directive((PieceSource(p) + rest)[1..], NEW_ITEM, PieceArgs(p) + args, a)
            == Some(Outcome(PieceText(p, a), rest, args))
  {
    var last := [p.conversion] + rest;
    var widths := WidthText(p.width) + (FieldSource(p.field) + last);
    SourceForm(p, rest);
    ArgsForm(p, args);
    var all, item := ClosingArgs(p.arg) + args, PieceItem(p.flags, p.width.value, p.field);
    assert Directive(p.flags + widths, NEW_ITEM, PieceArgs(p) + args, a) == Directive(last, item, all, a) by {
      FlagsPart(p.flags, widths, PieceArgs(p) + args, a);
      WidthsPart(p.flags, p.width, p.field, last, all, a);
    }
    assert Directive(last, item, all, a) == Some(Outcome(PieceText(p, a), rest, args)) by {
      ConversionRead(p.conversion, rest, item, p.arg, args, a);
    }
  }

  lemma AttributeRead(c: wchar, rest: seq<wchar>, args: seq<Arg>, a: Attributes)
    requires IsAttribute(c) && AttributeOf(a, c) != 0
    ensures Directive([c] + rest, NEW_ITEM, args, a) == Some(Outcome([], rest, args))
  {
    assert ([c] + rest)[1..] == rest;
  }

  lemma PieceRead(p: Piece, rest: seq<wchar>, args: seq<Arg>, a: Attributes)
    requires ValidPiece(p, a)
    ensures Expand(PieceSource(p) + rest, PieceArgs(p) + args, a) == Prefixed(PieceText(p, a), Expand(rest, args, a))
  {
    var t := PieceSource(p) + rest;
    match p
    case Plain(c) =>
      assert t[1..] == rest && PieceArgs(p) + args == args;
    case Attribute(c) =>
      assert t[1..] == [c] + rest && PieceArgs(p) + args == args;
      AttributeRead(c, rest, args, a);
    case Show(_, _, _, _, _) =>
      ShowRead(p, rest, args, a);
  }

  /** Every format written from pieces expands to its rendered pieces, and takes their arguments. */
  lemma {:induction false} ExpandRenders(ps: seq<Piece>, a: Attributes)
    requires ValidPieces(ps, a)
    ensures Expand(Source(ps), Args(ps), a) == Some(Rendered(ps, a))
  {
    if ps != [] {
      ExpandRenders(ps[1..], a);
      PieceRead(ps[0], Source(ps[1..]), Args(ps[1..]), a);
    }
  }
}
