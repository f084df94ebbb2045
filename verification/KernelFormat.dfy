/** `cstr::format` and the buffers it shares with the number printers (`Kernel/src/cstr.cpp`). */
module KernelFormat {
  import opened Digits
  import opened KernelStrings

  // ---------------------------------------------------------------------------
  // What a format string stands for
  // ---------------------------------------------------------------------------

  predicate IsDigit(c: char8) {
    0x30 <= c <= 0x39
  }

  type Params = p: seq<int64> | |p| == 10 witness [0, 0, 0, 0, 0, 0, 0, 0, 0, 0]

  function ParamOf(ps: Params, c: char8): int64
    requires IsDigit(c)
  {
    ps[c as int - 0x30]
  }

  predicate DecimalDirective(t: seq<char8>) {
    |t| >= 2 && t[0] == PERCENT && IsDigit(t[1])
  }

  predicate HexDirective(t: seq<char8>) {
    |t| >= 3 && t[0] == PERCENT && t[1] == SMALL_X && IsDigit(t[2])
  }

  /** What the buffer receives. A '%' that starts no directive writes nothing and leaves the
      zero the buffer was cleared with. */
  function Expand(t: seq<char8>, ps: Params): seq<char8> {
    if t == [] then []
    else if HexDirective(t) then HexText(Word(ParamOf(ps, t[2]))) + Expand(t[3..], ps)
    else if DecimalDirective(t) then DecimalText(ParamOf(ps, t[1])) + Expand(t[2..], ps)
    else (if t[0] == PERCENT then [0] else [t[0]]) + Expand(t[1..], ps)
  }

  /** Some '%' starts no directive. */
  predicate HasStray(t: seq<char8>) {
    if t == [] then false
    else if HexDirective(t) then HasStray(t[3..])
    else if DecimalDirective(t) then HasStray(t[2..])
    else t[0] == PERCENT || HasStray(t[1..])
  }

  /** The pieces a format string is written from. */
  datatype Piece = Plain(c: char8) | Decimal(i: int) | Hex(i: int)

  predicate ValidPiece(p: Piece) {
    match p
    case Plain(c) => c != PERCENT && c != 0
    case Decimal(i) => 0 <= i < 10
    case Hex(i) => 0 <= i < 10
  }

  predicate ValidPieces(ps: seq<Piece>) {
    forall k | 0 <= k < |ps| :: ValidPiece(ps[k])
  }

  function PieceSource(p: Piece): seq<char8>
    requires ValidPiece(p)
  {
    match p
    case Plain(c) => [c]
    case Decimal(i) => [PERCENT, 0x30 + i]
    case Hex(i) => [PERCENT, SMALL_X, 0x30 + i]
  }

  function PieceText(p: Piece, args: Params): seq<char8>
    requires ValidPiece(p)
  {
    match p
    case Plain(c) => [c]
    case Decimal(i) => DecimalText(args[i])
    case Hex(i) => HexText(Word(args[i]))
  }

  function Source(ps: seq<Piece>): seq<char8>
    requires ValidPieces(ps)
  {
    if ps == [] then [] else PieceSource(ps[0]) + Source(ps[1..])
  }

  function Substituted(ps: seq<Piece>, args: Params): seq<char8>
    requires ValidPieces(ps)
  {
    if ps == [] then [] else PieceText(ps[0], args) + Substituted(ps[1..], args)
  }

  /** Expansion substitutes every piece, from left to right. */
  lemma {:induction false} ExpandSubstitutes(ps: seq<Piece>, args: Params)
    requires ValidPieces(ps)
    ensures Expand(Source(ps), args) == Substituted(ps, args)
    ensures !HasStray(Source(ps))
  {
    if ps != [] {
      ExpandSubstitutes(ps[1..], args);
      FirstPiece(ps[0], Source(ps[1..]), args);
    }
  }

  lemma FirstPiece(p: Piece, rest: seq<char8>, args: Params)
    requires ValidPiece(p)
    ensures Expand(PieceSource(p) + rest, args) == PieceText(p, args) + Expand(rest, args)
    ensures HasStray(PieceSource(p) + rest) == HasStray(rest)
  {
    var t := PieceSource(p) + rest;
    match p
    case Plain(c) => assert t[1..] == rest;
    case Decimal(i) => assert t[2..] == rest && t[1] == 0x30 + i;
    case Hex(i) => assert t[3..] == rest && t[2] == 0x30 + i;
  }

  /** Expansion by characters: "%x" and a digit, "%" and a digit, any other "%", and all the rest. */
  lemma ExpandIs(t: seq<char8>, args: Params, i: nat, c: char8)
    requires i < 10
    ensures Expand([], args) == []
    ensures Expand([0x25, 0x78, 0x30 + i] + t, args)
            == HexText(Word(args[i])) + Expand(t, args)
    ensures Expand([0x25, 0x30 + i] + t, args) == DecimalText(args[i]) + Expand(t, args)
    ensures c != 0x25 ==> Expand([c] + t, args) == [c] + Expand(t, args)
    ensures (t == [] || !(0x30 <= t[0] <= 0x39)) && (|t| < 2 || t[0] != 0x78 || !(0x30 <= t[1] <= 0x39)) ==>
              Expand([0x25] + t, args) == [0] + Expand(t, args)
  {
    assert ([0x25, 0x78, 0x30 + i] + t)[3..] == t && ([0x25, 0x30 + i] + t)[2..] == t;
    assert ([c] + t)[1..] == t && ([0x25] + t)[1..] == t;
  }

  /** The name of the thread with id 0: "#%0" becomes "#0". */
  lemma ThreadZero(args: Params)
    requires args[0] == 0
    ensures Expand([0x23, 0x25, 0x30], args) == [0x23, 0x30]
  {
    hide Expand, DecimalText, HexText;
    DecimalTextIs(0);
    ExpandIs([], args, 0, 0x23);
    assert [0x25, 0x30] + [] == [0x25, 0x30];
    ExpandIs([0x25, 0x30], args, 0, 0x23);
    assert [0x23] + [0x25, 0x30] == [0x23, 0x25, 0x30];
  }

  /** "%x1" for the byte 0xAB is "0xAB". */
  lemma HexByte(args: Params)
    requires args[1] == 0xAB
    ensures Expand([0x25, 0x78, 0x31], args) == [0x30, 0x78, 0x41, 0x42]
  {
    hide Expand, DecimalText, HexText;
    HexTextIs(0xAB);
    WordOfSmall(0xAB);
    ExpandIs([], args, 1, 0x23);
    assert [0x25, 0x78, 0x31] + [] == [0x25, 0x78, 0x31];
  }

  /** Every text without stray '%' is written from pieces. */
  lemma {:induction false} WrittenFromPieces(t: seq<char8>) returns (ps: seq<Piece>)
    requires !HasStray(t) && forall i | 0 <= i < |t| :: t[i] != 0
    ensures ValidPieces(ps) && Source(ps) == t
    decreases |t|
  {
    if t == [] {
      ps := [];
    } else if HexDirective(t) {
      var rest := WrittenFromPieces(t[3..]);
      ps := [Hex(t[2] as int - 0x30)] + rest;
      assert ps[1..] == rest && t == [PERCENT, SMALL_X, t[2]] + t[3..];
    } else if DecimalDirective(t) {
      var rest := WrittenFromPieces(t[2..]);
      ps := [Decimal(t[1] as int - 0x30)] + rest;
      assert ps[1..] == rest && t == [PERCENT, t[1]] + t[2..];
    } else {
      var rest := WrittenFromPieces(t[1..]);
      ps := [Plain(t[0])] + rest;
      assert ps[1..] == rest && t == [t[0]] + t[1..];
    }
  }

  /** So every text without stray '%' expands to its pieces substituted, whatever the parameters. */
  lemma StrayFreeIsSubstituted(t: seq<char8>) returns (ps: seq<Piece>)
    requires !HasStray(t) && forall i | 0 <= i < |t| :: t[i] != 0
    ensures ValidPieces(ps) && Source(ps) == t
    ensures forall args: Params :: Expand(t, args) == Substituted(ps, args)
  {
    ps := WrittenFromPieces(t);
    forall args: Params
      ensures Expand(t, args) == Substituted(ps, args)
    {
      ExpandSubstitutes(ps, args);
    }
  }

  /** The caller, who stops at the first NUL, sees the whole expansion exactly when no '%' is
      astray. */
  lemma {:induction false} VisibleIffNoStray(t: seq<char8>, ps: Params)
    requires forall i | 0 <= i < |t| :: t[i] != 0
    ensures 0 !in Expand(t, ps) <==> !HasStray(t)
    decreases |t|
  {
    if t != [] {
      if HexDirective(t) {
        NumberTextBounds(ParamOf(ps, t[2]), true);
        VisibleIffNoStray(t[3..], ps);
      } else if DecimalDirective(t) {
        NumberTextBounds(ParamOf(ps, t[1]), false);
        VisibleIffNoStray(t[2..], ps);
      } else {
        VisibleIffNoStray(t[1..], ps);
      }
    }
  }

  // ---------------------------------------------------------------------------
  // The shared buffers
  // ---------------------------------------------------------------------------

  /** A buffer holds this text from offset o on, then a NUL. */
  predicate HoldsAt(b: seq<char8>, o: nat, t: seq<char8>) {
    o + |t| < |b| && b[o..o + |t|] == t && b[o + |t|] == 0
  }

  method StrLen(str: array<char8>, o: nat, ghost t: seq<char8>) returns (n: nat)
    requires HoldsAt(str[..], o, t) && 0 !in t
    ensures n == |t|
  {
    n := 0;
    assert forall k | 0 <= k < |t| :: t[k] == str[..][o..o + |t|][k] == str[o + k];
    while str[o + n] != 0
      invariant n <= |t|
      decreases |t| - n
    {
      n := n + 1;
    }
  }

  class Buffers {
    const hexBuffer: array<char8>
    const strBuffer: array<char8>
    const revBuffer: array<char8>
    const formatBuffer: array<char8>

    predicate Valid() {
      && hexBuffer.Length == 32 && strBuffer.Length == 32
      && revBuffer.Length == 256 && formatBuffer.Length == 512
      && hexBuffer != strBuffer && hexBuffer != revBuffer && hexBuffer != formatBuffer
      && strBuffer != revBuffer && strBuffer != formatBuffer && revBuffer != formatBuffer
    }

    constructor ()
      ensures Valid()
      ensures fresh(hexBuffer) && fresh(strBuffer) && fresh(revBuffer) && fresh(formatBuffer)
    {
      hexBuffer := new char8[32];
      strBuffer := new char8[32];
      revBuffer := new char8[256];
      formatBuffer := new char8[512];
    }

    method ClearBuffer(a: array<char8>)
      modifies a
      ensures forall i | 0 <= i < a.Length :: a[i] == 0
    {
      for i := 0 to a.Length
        invariant forall k | 0 <= k < i :: a[k] == 0
      {
        a[i] := 0;
      }
    }

    /** `Reverse(str)` with its length left to `strlen`, through `revBuffer`. */
    method Reverse(str: array<char8>, o: nat, ghost t: seq<char8>)
      requires Valid() && str != revBuffer
      requires HoldsAt(str[..], o, t) && 0 !in t && |t| <= 255
      modifies str, revBuffer
      ensures HoldsAt(str[..], o, Reversed(t))
      ensures forall i | 0 <= i < str.Length && !(o <= i < o + |t|) :: str[i] == old(str[i])
    {
      var length := StrLen(str, o, t);
      if length > 255 {
        return;
      }
      FillBackward(str, o, length, t);
      CopyBack(str, o, length);
      forall k | 0 <= k < length
        ensures str[o + k] == Reversed(t)[k]
      {
        ReversedAt(t, k);
      }
      assert str[..][o..o + |t|] == Reversed(t);
    }

    /** The first loop of `Reverse`. */
    method FillBackward(str: array<char8>, o: nat, length: nat, ghost t: seq<char8>)
      requires Valid() && str != revBuffer && |t| == length <= 255 && HoldsAt(str[..], o, t)
      modifies revBuffer
      ensures forall k | 0 <= k < |t| :: revBuffer[k] == t[|t| - 1 - k]
    {
      hide HoldsAt;
      var index: nat, reverseIndex: nat := 0, length;
      while reverseIndex != 0
        invariant index + reverseIndex == |t|
        invariant forall k | reverseIndex <= k < |t| :: revBuffer[k] == t[|t| - 1 - k]
        decreases reverseIndex
      {
        reverseIndex := reverseIndex - 1;
        HeldAt(str[..], o, t, index);
        revBuffer[reverseIndex] := str[o + index];
        index := index + 1;
      }
    }

    lemma HeldAt(b: seq<char8>, o: nat, t: seq<char8>, k: nat)
      requires HoldsAt(b, o, t) && k < |t|
      ensures o + k < |b| && b[o + k] == t[k]
    {
      assert b[o..o + |t|][k] == t[k];
    }

    /** The second loop of `Reverse`. */
    method CopyBack(str: array<char8>, o: nat, length: nat)
      requires Valid() && str != revBuffer && length <= 255 && o + length <= str.Length
      modifies str
      ensures forall i | 0 <= i < str.Length :: str[i] == if o <= i < o + length then revBuffer[i - o] else old(str[i])
    {
      var k: nat := 0;
      while k < length
        invariant k <= length
        invariant forall i | 0 <= i < str.Length :: str[i] == if o <= i < o + k then revBuffer[i - o] else old(str[i])
      {
        str[o + k] := revBuffer[k];
        k := k + 1;
      }
    }

    /** `_ToStr`. */
    method ToStr(num: int64)
      requires Valid()
      modifies strBuffer, revBuffer
      ensures HoldsAt(strBuffer[..], 0, DecimalText(num))
    {
      ClearBuffer(strBuffer);
      if num == 0 {
        strBuffer[0] := ZERO;
        return;
      }
      var n, o := num, 0;
      if num < 0 {
        strBuffer[0] := MINUS;
        o := 1;
        n := Negated(num);
      }
      ghost var ds := LowDigits(n, 10);
      NonzeroNegated(num);
      PutDigits(n, o);
      NumberTextBounds(num, false);
      PrintableDigits(n);
      Reverse(strBuffer, o, DecimalChars(ds));
      ReversedChars(ds);
      if num < 0 {
        assert strBuffer[0] == MINUS;
        assert strBuffer[..][0..|DecimalText(num)|] == [MINUS] + strBuffer[..][1..1 + |ds|];
      }
    }

    lemma NonzeroNegated(num: int64)
      requires num != 0
      ensures Negated(num) != 0
    {}

    lemma PrintableDigits(n: int64)
      requires n != 0
      ensures 0 !in DecimalChars(LowDigits(n, 10)) && 0 < |LowDigits(n, 10)| <= 19
    {
      NumeralDigits(n, 10);
      NoLeadingZero(n, 10);
      SixtyFourBitLengths(n);
    }

    lemma ReversedChars(ds: seq<int>)
      ensures Reversed(DecimalChars(ds)) == DecimalChars(Reversed(ds))
    {
      forall k | 0 <= k < |ds|
        ensures Reversed(DecimalChars(ds))[k] == DecimalChars(Reversed(ds))[k]
      {
        ReversedAt(DecimalChars(ds), k);
        ReversedAt(ds, k);
      }
    }

    /** The digit loop of `_ToStr`, lowest digit first. */
    method PutDigits(num: int64, o: nat)
      requires Valid() && num != 0 && o <= 1
      requires forall i | o <= i < 32 :: strBuffer[i] == 0
      modifies strBuffer
      ensures HoldsAt(strBuffer[..], o, DecimalChars(LowDigits(num, 10)))
      ensures o == 1 ==> strBuffer[0] == old(strBuffer[0])
    {
      hide Reversed;
      ghost var ds := LowDigits(num, 10);
      PrintableDigits(num);
      NumeralDigits(num, 10);
      var n: int, index: nat := num, 0;
      while n != 0
        invariant index <= |ds| && ds[index..] == LowDigits(n, 10)
        invariant forall k | 0 <= k < index :: strBuffer[o + k] == DecimalChar(ds[k])
        invariant forall i | o + index <= i < 32 :: strBuffer[i] == 0
        invariant o == 1 ==> strBuffer[0] == old(strBuffer[0])
        decreases Abs(n)
      {
        TruncParts(n, 10);
        assert ds[index..][0] == ds[index] && ds[index..][1..] == ds[index + 1..];
        strBuffer[o + index] := TruncMod(n, 10) + 0x30;
        index := index + 1;
        n := TruncDiv(n, 10);
      }
      assert strBuffer[..][o..o + |ds|] == DecimalChars(ds);
    }

    /** `_ToHex`. */
    method ToHex(num: uint64)
      requires Valid()
      modifies hexBuffer, revBuffer
      ensures HoldsAt(hexBuffer[..], 0, HexText(num))
    {
      ClearBuffer(hexBuffer);
      hexBuffer[0] := ZERO;
      hexBuffer[1] := SMALL_X;
      if num == 0 {
        hexBuffer[2], hexBuffer[3] := ZERO, ZERO;
        assert hexBuffer[..][0..4] == HexText(num);
        return;
      }
      if num < 0x10 {
        hexBuffer[3] := ZERO;
      }
      PutReversed(num);
    }

    /** The rest of `_ToHex`, behind the prefix. */
    method PutReversed(num: uint64)
      requires Valid() && num != 0
      requires hexBuffer[0] == ZERO && hexBuffer[1] == SMALL_X
      requires hexBuffer[3] == if num < 0x10 then ZERO else 0
      requires forall i | 4 <= i < 32 :: hexBuffer[i] == 0
      modifies hexBuffer, revBuffer
      ensures HoldsAt(hexBuffer[..], 0, HexText(num))
    {
      hide HoldsAt, HexText;
      ghost var ds := LowDigits(num, 16) + if num < 0x10 then [0] else [];
      PutHexDigits(num);
      PrintableHexDigits(num);
      Reverse(hexBuffer, 2, HexChars(ds));
      ReversedHexChars(ds);
      HexDigitsReversed(num);
      Prefixed(hexBuffer[..], num);
    }

    lemma Prefixed(b: seq<char8>, num: uint64)
      requires HoldsAt(b, 2, HexChars(HexDigits(num))) && b[0] == ZERO && b[1] == SMALL_X
      ensures HoldsAt(b, 0, HexText(num))
    {
      assert b[0..|HexText(num)|] == [ZERO, SMALL_X] + b[2..2 + |HexDigits(num)|];
    }

    lemma PrintableHexDigits(n: uint64)
      requires n != 0
      ensures var ds := LowDigits(n, 16) + if n < 0x10 then [0] else [];
              0 !in HexChars(ds) && |ds| <= 16
    {
      NumeralDigits(n, 16);
      SixtyFourBitLengths(n);
      if n < 0x10 {
        assert LowDigits(n, 16) == [n] + LowDigits(0, 16);
      }
    }

    lemma HexDigitsReversed(n: uint64)
      requires n != 0
      ensures Reversed(LowDigits(n, 16) + if n < 0x10 then [0] else []) == HexDigits(n)
    {
      if n < 0x10 {
        assert LowDigits(n, 16) == [n] + LowDigits(0, 16) == [n];
        assert Reversed([n, 0]) == Reversed([0]) + [n];
        assert Reversed([0]) == [0];
        assert [n] + [0] == [n, 0];
      } else {
        assert LowDigits(n, 16) + [] == LowDigits(n, 16);
      }
    }

    lemma ReversedHexChars(ds: seq<int>)
      ensures Reversed(HexChars(ds)) == HexChars(Reversed(ds))
    {
      forall k | 0 <= k < |ds|
        ensures Reversed(HexChars(ds))[k] == HexChars(Reversed(ds))[k]
      {
        ReversedAt(HexChars(ds), k);
        ReversedAt(ds, k);
      }
    }

    /** The digit loop of `_ToHex`; a '0' already stored behind a single digit stays. */
    method PutHexDigits(num: uint64)
      requires Valid() && num != 0
      requires hexBuffer[0] == ZERO && hexBuffer[1] == SMALL_X
      requires hexBuffer[3] == if num < 0x10 then ZERO else 0
      requires forall i | 4 <= i < 32 :: hexBuffer[i] == 0
      modifies hexBuffer
      ensures HoldsAt(hexBuffer[..], 2, HexChars(LowDigits(num, 16) + if num < 0x10 then [0] else []))
      ensures hexBuffer[0] == ZERO && hexBuffer[1] == SMALL_X
    {
      hide Reversed, HexText;
      ghost var ds := LowDigits(num, 16);
      ghost var all := ds + if num < 0x10 then [0] else [];
      PrintableHexDigits(num);
      NumeralDigits(num, 16);
      var n: nat, index: nat := num, 0;
      while n != 0
        invariant index <= |ds| && ds[index..] == LowDigits(n, 16)
        invariant forall k | 0 <= k < index :: hexBuffer[2 + k] == HexChar(ds[k])
        invariant forall i | 2 + index <= i < 32 && i != 2 && i != 3 :: hexBuffer[i] == 0
        invariant index < 2 ==> hexBuffer[3] == if num < 0x10 then ZERO else 0
        invariant hexBuffer[0] == ZERO && hexBuffer[1] == SMALL_X
        decreases n
      {
        TruncParts(n, 16);
        assert ds[index..][0] == ds[index] && ds[index..][1..] == ds[index + 1..];
        var val := n % 0x10;
        hexBuffer[2 + index] := if val > 9 then val + 0x37 else val + 0x30;
        index := index + 1;
        n := n / 0x10;
      }
      if num < 0x10 {
        assert ds == [num] + LowDigits(0, 16) == [num];
      }
      assert hexBuffer[..][2..2 + |all|] == HexChars(all);
    }

    /** `ToString`: the text is in the buffer that is returned. */
    method ToString(num: int64, hex: bool) returns (pstr: array<char8>)
      requires Valid()
      modifies hexBuffer, strBuffer, revBuffer
      ensures pstr == (if hex then hexBuffer else strBuffer)
      ensures HoldsAt(pstr[..], 0, NumberText(num, hex))
    {
      if hex {
        ToHex(Word(num));
        pstr := hexBuffer;
      } else {
        ToStr(num);
        pstr := strBuffer;
      }
    }

    // -------------------------------------------------------------------------
    // format
    // -------------------------------------------------------------------------

    /** `Insert`, behind its call of `ToString`: the text of a parameter goes to x + offset, offset
        counting modulo 2^64. */
    method Insert(pstr: array<char8>, x: nat, offset: uint64, ghost t: seq<char8>, ghost w: nat)
      returns (next: uint64)
      requires Valid() && pstr != formatBuffer && HoldsAt(pstr[..], 0, t) && 0 !in t
      requires Word(x + offset) == w && w + |t| <= 512
      modifies formatBuffer
      ensures next == Word(offset + |t| - 1)
      ensures formatBuffer[..w + |t|] == old(formatBuffer[..w]) + t
      ensures forall i | w + |t| <= i < 512 :: formatBuffer[i] == old(formatBuffer[i])
    {
      ghost var before := formatBuffer[..];
      assert forall k | 0 <= k < |t| :: t[k] == pstr[..][0..|t|][k] == pstr[k];
      CopyIn(pstr, x, offset, t, w);
      assert formatBuffer[..w + |t|] == before[..w] + t;
      var length := StrLen(pstr, 0, t);
      next := Word(offset + length - 1);
    }

    /** The copying loop of `Insert`. */
    method CopyIn(pstr: array<char8>, x: nat, offset: uint64, ghost t: seq<char8>, ghost w: nat)
      requires Valid() && Word(x + offset) == w && w + |t| <= 512 && pstr != formatBuffer
      requires |t| < pstr.Length && pstr[|t|] == 0 && forall k | 0 <= k < |t| :: pstr[k] == t[k] != 0
      modifies formatBuffer
      ensures forall i | 0 <= i < 512 ::
                formatBuffer[i] == if w <= i < w + |t| then t[i - w] else old(formatBuffer[i])
    {
      var y: nat := 0;
      while pstr[y] != 0
        invariant y <= |t|
        invariant forall i | 0 <= i < 512 ::
                    formatBuffer[i] == if w <= i < w + y then t[i - w] else old(formatBuffer[i])
        decreases |t| - y
      {
        PutAt(x, y, offset, pstr[y], w);
        y := y + 1;
      }
    }

    /** `formatBuffer[x + y + offset] = c`. */
    method PutAt(x: nat, y: nat, offset: uint64, c: char8, ghost w: nat)
      requires Valid() && Word(x + offset) == w && w + y < 512
      modifies formatBuffer
      ensures forall i | 0 <= i < 512 :: formatBuffer[i] == if i == w + y then c else old(formatBuffer[i])
    {
      IndexWraps(x, y, offset, w);
      formatBuffer[Word(x + y + offset)] := c;
    }

    lemma IndexWraps(x: nat, y: nat, offset: uint64, w: nat)
      requires Word(x + offset) == w && w + y < 512
      ensures Word(x + y + offset) == w + y
    {
      var k := (x + offset) / TWO64;
      assert x + offset == w + k * TWO64;
      WordUnique(x + y + offset, w + y, k);
    }

    /** The offset after a directive of `skip` characters besides the '%' replaced by n characters. */
    lemma OffsetAfter(x: nat, offset: uint64, n: nat, skip: nat, w: nat)
      requires Word(x + offset) == w && w + n <= 512
      ensures Word((x + skip + 1) + Word(Word(offset + n - 1) - skip)) == w + n
    {
      var a := offset + n - 1;
      var b := Word(a) - skip;
      var p, q := a / TWO64, b / TWO64;
      assert a == Word(a) + p * TWO64 && b == Word(b) + q * TWO64;
      var k := (x + offset) / TWO64;
      assert x + offset == w + k * TWO64;
      assert (x + skip + 1) + Word(b) == (w + n) + (k - p - q) * TWO64;
      WordUnique((x + skip + 1) + Word(b), w + n, k - p - q);
    }

    /** The text of what starts at position x, and how many characters it takes. */
    ghost predicate PieceAt(str: seq<char8>, ps: Params, x: nat, skip: nat, piece: seq<char8>)
      requires IsCString(str)
    {
      && x + skip < |str|
      && Expand(CText(str)[x..], ps) == piece + Expand(CText(str)[x + skip..], ps)
    }

    lemma CharHere(str: seq<char8>, ps: Params, x: nat)
      requires IsCString(str) && x < |str| && str[x] != 0 && str[x] != PERCENT
      ensures PieceAt(str, ps, x, 1, [str[x]])
    {
      hide HexText, DecimalText, Word;
      var rest := CText(str)[x..];
      assert rest[0] == str[x] && rest[1..] == CText(str)[x + 1..];
    }

    /** What stands behind a '%' is in the string, since a NUL ends every case. */
    lemma BehindPercent(str: seq<char8>, x: nat)
      requires IsCString(str) && x < |str| && str[x] == PERCENT
      ensures x + 1 < |str| && (str[x + 1] != 0 ==> x + 2 < |str|)
    {}

    lemma HexHere(str: seq<char8>, ps: Params, x: nat)
      requires IsCString(str) && x + 2 < |str|
      requires str[x] == PERCENT && str[x + 1] == SMALL_X && IsDigit(str[x + 2])
      ensures PieceAt(str, ps, x, 3, NumberText(ParamOf(ps, str[x + 2]), true))
    {
      hide HexText, DecimalText, Word;
      var rest := CText(str)[x..];
      assert rest[0] == str[x] && rest[1] == str[x + 1] && rest[2] == str[x + 2];
      assert rest[3..] == CText(str)[x + 3..];
    }

    lemma DecimalHere(str: seq<char8>, ps: Params, x: nat)
      requires IsCString(str) && x + 1 < |str| && str[x] == PERCENT && IsDigit(str[x + 1])
      ensures PieceAt(str, ps, x, 2, NumberText(ParamOf(ps, str[x + 1]), false))
    {
      hide HexText, DecimalText, Word;
      var rest := CText(str)[x..];
      assert rest[0] == str[x] && rest[1] == str[x + 1] && rest[2..] == CText(str)[x + 2..];
    }

    lemma StrayHere(str: seq<char8>, ps: Params, x: nat)
      requires IsCString(str) && x + 1 < |str| && str[x] == PERCENT && !IsDigit(str[x + 1])
      requires str[x + 1] == SMALL_X ==> x + 2 < |str| && !IsDigit(str[x + 2])
      ensures PieceAt(str, ps, x, 1, [0])
    {
      hide HexText, DecimalText, Word;
      var rest := CText(str)[x..];
      assert rest[0] == str[x] && rest[1..] == CText(str)[x + 1..];
      assert |rest| > 1 ==> rest[1] == str[x + 1];
      assert |rest| > 2 ==> rest[2] == str[x + 2];
    }

    /** w characters of the expansion are accounted for when x characters are consumed. */
    ghost predicate Progress(str: seq<char8>, ps: Params, all: seq<char8>, x: nat, w: nat)
      requires IsCString(str)
    {
      x < |str| && w <= |all| && all[w..] == Expand(CText(str)[x..], ps)
    }

    lemma ProgressBy(str: seq<char8>, ps: Params, all: seq<char8>, x: nat, w: nat, skip: nat, piece: seq<char8>)
      requires IsCString(str) && Progress(str, ps, all, x, w) && PieceAt(str, ps, x, skip, piece)
      ensures Progress(str, ps, all, x + skip, w + |piece|)
      ensures all[..w + |piece|] == all[..w] + piece
    {
      SplitBehind(all, w, piece, Expand(CText(str)[x + skip..], ps));
    }

    lemma SplitBehind(all: seq<char8>, w: nat, piece: seq<char8>, rest: seq<char8>)
      requires w <= |all| && all[w..] == piece + rest
      ensures w + |piece| <= |all| && all[w + |piece|..] == rest && all[..w + |piece|] == all[..w] + piece
    {
      assert all == all[..w] + (piece + rest);
    }

    /** The state of the loop of `format`: x characters consumed, w written. */
    ghost predicate Formatting(str: seq<char8>, ps: Params, all: seq<char8>, x: nat, offset: uint64, w: nat)
      requires Valid() && IsCString(str)
      reads formatBuffer
    {
      && Progress(str, ps, all, x, w)
      && Word(x + offset) == w < 512
      && formatBuffer[..w] == all[..w]
      && forall i | w <= i < 512 :: formatBuffer[i] == 0
    }

    /** One round: x and the offset move, the written text grows by one piece. */
    method FormatPiece(str: seq<char8>, ps: Params, ghost all: seq<char8>, x0: nat, offset0: uint64, ghost w0: nat)
      returns (x: nat, offset: uint64, ghost w: nat)
      requires Valid() && IsCString(str) && |all| < 512 && x0 < |str|
      requires Formatting(str, ps, all, x0, offset0, w0) && str[x0] != 0
      modifies hexBuffer, strBuffer, revBuffer, formatBuffer
      ensures x > x0 && Formatting(str, ps, all, x, offset, w)
    {
      hide Formatting;
      if str[x0] == PERCENT {
        x, offset, w := FormatPercent(str, ps, all, x0, offset0, w0);
      } else {
        x, offset := x0, offset0;
        w := CopyChar(str, ps, all, x0, offset0, w0);
      }
      x := x + 1;
    }

    /** The cases of the inner switch, up to the `x++` of the loop. */
    method FormatPercent(str: seq<char8>, ps: Params, ghost all: seq<char8>, x0: nat, offset0: uint64, ghost w0: nat)
      returns (x: nat, offset: uint64, ghost w: nat)
      requires Valid() && IsCString(str) && |all| < 512 && x0 < |str|
      requires Formatting(str, ps, all, x0, offset0, w0) && str[x0] == PERCENT
      modifies hexBuffer, strBuffer, revBuffer, formatBuffer
      ensures x >= x0 && Formatting(str, ps, all, x + 1, offset, w)
    {
      hide Formatting, PieceAt, NumberText, ParamOf;
      BehindPercent(str, x0);
      if str[x0 + 1] == SMALL_X && IsDigit(str[x0 + 2]) {
        HexHere(str, ps, x0);
        var pstr, t := ParamText(ParamOf(ps, str[x0 + 2]), true);
        x, offset, w := FormatDirective(str, ps, all, x0, offset0, w0, pstr, 2, t);
      } else if IsDigit(str[x0 + 1]) {
        DecimalHere(str, ps, x0);
        var pstr, t := ParamText(ParamOf(ps, str[x0 + 1]), false);
        x, offset, w := FormatDirective(str, ps, all, x0, offset0, w0, pstr, 1, t);
      } else {
        StrayHere(str, ps, x0);
        StrayStep(str, ps, all, x0, offset0, w0);
        x, offset, w := x0, offset0, w0 + 1;
      }
    }

    /** A '%' that starts no directive passes over a place that holds 0. */
    lemma StrayStep(str: seq<char8>, ps: Params, all: seq<char8>, x: nat, offset: uint64, w: nat)
      requires Valid() && IsCString(str) && |all| < 512
      requires Formatting(str, ps, all, x, offset, w) && PieceAt(str, ps, x, 1, [0])
      ensures Formatting(str, ps, all, x + 1, offset, w + 1)
    {
      ProgressBy(str, ps, all, x, w, 1, [0]);
      IndexWraps(x, 1, offset, w);
    }

    /** A character that is not a '%'. */
    method CopyChar(str: seq<char8>, ps: Params, ghost all: seq<char8>, x: nat, offset: uint64, ghost w0: nat)
      returns (ghost w: nat)
      requires Valid() && IsCString(str) && |all| < 512
      requires Formatting(str, ps, all, x, offset, w0) && x < |str| && str[x] != 0 && str[x] != PERCENT
      modifies formatBuffer
      ensures Formatting(str, ps, all, x + 1, offset, w)
    {
      CharHere(str, ps, x);
      ProgressBy(str, ps, all, x, w0, 1, [str[x]]);
      IndexWraps(x, 1, offset, w0);
      formatBuffer[Word(x + offset)] := str[x];
      w := w0 + 1;
    }

    /** `ToString(param, UseHex)` as `Insert` uses it. */
    method ParamText(param: int64, useHex: bool) returns (pstr: array<char8>, ghost t: seq<char8>)
      requires Valid()
      modifies hexBuffer, strBuffer, revBuffer
      ensures pstr != formatBuffer && t == NumberText(param, useHex) && HoldsAt(pstr[..], 0, t) && 0 !in t
    {
      pstr := ToString(param, useHex);
      t := NumberText(param, useHex);
      NumberTextBounds(param, useHex);
    }

    /** The directive cases, up to the `x++` of the loop: `skip` characters behind the '%' are replaced
        by the text t at pstr. */
    method FormatDirective(str: seq<char8>, ps: Params, ghost all: seq<char8>, x0: nat, offset0: uint64,
                           ghost w0: nat, pstr: array<char8>, skip: nat, ghost t: seq<char8>)
      returns (x: nat, offset: uint64, ghost w: nat)
      requires Valid() && IsCString(str) && |all| < 512
      requires Formatting(str, ps, all, x0, offset0, w0) && PieceAt(str, ps, x0, skip + 1, t)
      requires pstr != formatBuffer && HoldsAt(pstr[..], 0, t) && 0 !in t
      modifies formatBuffer
      ensures x == x0 + skip && Formatting(str, ps, all, x + 1, offset, w)
    {
      x, w := x0 + skip, w0 + |t|;
      ProgressBy(str, ps, all, x0, w0, skip + 1, t);
      assert w <= |all| < 512;
      offset := Insert(pstr, x0, offset0, t, w0);
      offset := LessSkip(x0, offset0, w0, |t|, offset, skip);
    }

    /** `fBufferOffset -= skip`: x + offset is the written length again. */
    method LessSkip(x: nat, ghost before: uint64, ghost w: nat, ghost n: nat, after: uint64, skip: nat)
      returns (offset: uint64)
      requires Word(x + before) == w && w + n <= 512 && after == Word(before + n - 1)
      ensures Word(x + skip + 1 + offset) == w + n
    {
      OffsetAfter(x, before, n, skip, w);
      offset := Word(after - skip);
    }

    /** `format` leaves the expansion, and zeros behind it, whenever it is under 512
        characters; x + offset counts the characters written, modulo 2^64. */
    method Format(str: seq<char8>, ps: Params)
      requires Valid() && IsCString(str)
      requires |Expand(CText(str), ps)| < 512
      modifies hexBuffer, strBuffer, revBuffer, formatBuffer
      ensures formatBuffer[..|Expand(CText(str), ps)|] == Expand(CText(str), ps)
      ensures forall i | |Expand(CText(str), ps)| <= i < 512 :: formatBuffer[i] == 0
    {
      hide HexDirective, DecimalDirective, HexText, DecimalText;
      ghost var all := Expand(CText(str), ps);
      var fBufferOffset: uint64, x: nat := 0, 0;
      ClearBuffer(formatBuffer);
      ghost var w: nat := 0;
      assert CText(str)[0..] == CText(str);
      while str[x] != 0
        invariant x < |str| && Formatting(str, ps, all, x, fBufferOffset, w)
        decreases |str| - x
      {
        x, fBufferOffset, w := FormatPiece(str, ps, all, x, fBufferOffset, w);
      }
      assert CText(str)[x..] == [];
    }
  }
}
