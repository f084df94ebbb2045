/** How a terminal grid looks on a framebuffer. */
module ConsoleImage {
  import opened Basics
  import opened Terminal

  const MASK_VALUES: seq<nat> := [128, 64, 32, 16, 8, 4, 2, 1]

  /** `b & (0b10000000 >> k)`, for the shifts below 32 that the console makes. */
  predicate Bit(b: byte, k: nat) {
    k < 8 && b / MASK_VALUES[k] % 2 == 1
  }

  /** A font of charsize rows a glyph, half as wide, on a framebuffer of so many pixels. */
  datatype Geometry = Geometry(charsize: nat, pixelsPerScanline: nat, height: nat) {
    function CharWidth(): nat {
      charsize / 2
    }

    predicate Usable() {
      2 <= charsize <= 64 && CharWidth() <= pixelsPerScanline && charsize <= height
    }

    /** mWidth and mHeight. */
    function GridSize(): (size: Size)
      requires Usable()
      ensures size.Usable()
    {
      Size(Quotient(pixelsPerScanline, CharWidth()), Quotient(height, charsize))
    }
  }

  /** a / n, by taking n away as often as possible; and what remains. */
  function Quotient(a: nat, n: nat): nat
    requires n > 0
  {
    if a < n then 0 else 1 + Quotient(a - n, n)
  }

  function Remainder(a: nat, n: nat): (r: nat)
    requires n > 0
    ensures r < n
  {
    if a < n then a else Remainder(a - n, n)
  }

  lemma {:induction false} QuotientIsUnique(a: nat, k: nat, n: nat)
    requires n > 0 && k * n <= a < k * n + n
    ensures Quotient(a, n) == k && Remainder(a, n) == a - k * n
    decreases k
  {
    if k > 0 {
      assert (k - 1) * n + n == k * n;
      assert (k - 1) * n >= 0;
      QuotientIsUnique(a - n, k - 1, n);
    }
  }

  lemma {:induction false} QuotientTimes(a: nat, n: nat)
    requires n > 0
    ensures Quotient(a, n) * n + Remainder(a, n) == a
    decreases a
  {
    if a >= n {
      QuotientTimes(a - n, n);
      assert (Quotient(a - n, n) + 1) * n == Quotient(a - n, n) * n + n;
    }
  }

  lemma QuotientIff(a: nat, k: nat, n: nat)
    requires n > 0
    ensures Quotient(a, n) == k <==> k * n <= a < k * n + n
    ensures Quotient(a, n) == k ==> Remainder(a, n) == a - k * n
  {
    QuotientTimes(a, n);
    if k * n <= a < k * n + n {
      QuotientIsUnique(a, k, n);
    }
  }

  /** It is the machine's division. */
  lemma QuotientIsDivision(a: nat, n: nat)
    requires n > 0
    ensures Quotient(a, n) == a / n && Remainder(a, n) == a % n
  {
    var k := a / n;
    assert a == k * n + a % n;
    assert k >= 0 && k * n <= a < k * n + n;
    QuotientIsUnique(a, k, n);
  }

  /** The glyph buffer of a font: charsize bytes for each character. */
  datatype Font = Font(buffer: seq<byte>, charsize: nat) {
    predicate Usable() {
      |buffer| >= 128 * charsize
    }

    function Row(chr: glyph, dy: nat): byte
      requires Usable() && dy < charsize
    {
      LineStarts(chr, 128, charsize);
      buffer[chr * charsize + dy]
    }

    function GlyphPixel(chr: glyph, fg: color, bg: color, dx: nat, dy: nat): color
      requires Usable() && dy < charsize
    {
      if Bit(Row(chr, dy), dx) then fg else bg
    }

    function CellPixel(cell: Cell, bg: color, dx: nat, dy: nat): color
      requires Usable() && dy < charsize
    {
      match cell
      case Blank => bg
      case Glyph(chr, fg) => GlyphPixel(chr, fg, bg, dx, dy)
    }
  }

  /** A glyph is drawn from its charsize bytes in the buffer, from the top; in each the highest bit is the
      leftmost pixel, and what is wider than 8 pixels stays background. */
  lemma GlyphInBuffer(font: Font, chr: glyph, fg: color, bg: color, dx: nat, dy: nat)
    requires |font.buffer| >= 128 * font.charsize && dy < font.charsize
    ensures 0 <= chr * font.charsize + dy < |font.buffer|
    ensures font.GlyphPixel(chr, fg, bg, dx, dy)
            == if dx < 8 && font.buffer[chr * font.charsize + dy] / [128, 64, 32, 16, 8, 4, 2, 1][dx] % 2 == 1 then fg else bg
  {
    LineStarts(chr, 128, font.charsize);
  }

  /** As many cells as fit: half as wide as they are high. */
  lemma GridSizeIs(geo: Geometry)
    requires geo.Usable()
    ensures geo.GridSize() == Size(geo.pixelsPerScanline / (geo.charsize / 2), geo.height / geo.charsize)
  {
    QuotientIsDivision(geo.pixelsPerScanline, geo.charsize / 2);
    QuotientIsDivision(geo.height, geo.charsize);
  }

  /** The pixel of the picture of a grid; background beyond the last whole cell. */
  function Shade(geo: Geometry, font: Font, bg: color, grid: seq<Line>, x: nat, y: nat): color
    requires geo.Usable() && font.Usable() && font.charsize == geo.charsize && Fits(grid, geo.GridSize())
  {
    var r, c := Quotient(y, geo.charsize), Quotient(x, geo.CharWidth());
    if r < |grid| && c < geo.GridSize().columns
      then font.CellPixel(grid[r][c], bg, Remainder(x, geo.CharWidth()), Remainder(y, geo.charsize))
    else bg
  }

  /** The cell a pixel belongs to, and where in it. */
  lemma ShadeIs(geo: Geometry, font: Font, bg: color, grid: seq<Line>, x: nat, y: nat, r: nat, c: nat, dx: nat, dy: nat)
    requires geo.Usable() && font.Usable() && font.charsize == geo.charsize && Fits(grid, geo.GridSize())
    requires r == y / geo.charsize && dy == y % geo.charsize && c == x / (geo.charsize / 2) && dx == x % (geo.charsize / 2)
    ensures dy < font.charsize
    ensures Shade(geo, font, bg, grid, x, y)
            == if r < geo.GridSize().rows && c < geo.GridSize().columns then font.CellPixel(grid[r][c], bg, dx, dy) else bg
  {
    QuotientIsDivision(y, geo.charsize);
    QuotientIsDivision(x, geo.charsize / 2);
  }

  /** How many lines of a plain text have scrolled off. */
  function Above(n: nat, size: Size): nat
    requires size.Usable()
  {
    if n / size.columns < size.rows then 0 else n / size.columns + 1 - size.rows
  }

  lemma CellOnPaper(p: Paper, text: seq<Written>, size: Size, r: nat, c: nat)
    requires size.Usable() && GoodPaper(p, size) && Holds(p, text, size) && r < size.rows && c < size.columns
    ensures Window(p, size).grid[r][c] == CellAt(text, (Above(|text|, size) + r) * size.columns + c)
  {
    LineOf(|text|, p.line, p.x, size.columns);
    var top := Top(p, size);
    assert top == Above(|text|, size);
    assert Window(p, size).grid[r] == p.lines[top + r];
  }

  /** What a plain text leaves in cell (c, r) of a cleared screen. */
  lemma PlainCell(text: seq<Written>, size: Size, r: nat, c: nat)
    requires size.Usable() && IsPlain(text) && r < size.rows && c < size.columns
    ensures Run(Cleared(size), text, size).grid[r][c] == CellAt(text, (Above(|text|, size) + r) * size.columns + c)
  {
    hide PaperRun, Run, Window, CellAt, Holds;
    PlainTextLayout(text, size);
    ScreenShowsPaper(text, size);
    CellOnPaper(PaperRun(FreshPaper(size), text, size), text, size, r, c);
  }

  lemma LineOf(n: nat, line: nat, x: nat, columns: nat)
    requires x < columns && line * columns + x == n
    ensures line == n / columns
  {
    QuotientIsUnique(n, line, columns);
    QuotientIsDivision(n, columns);
  }

  /** Pixel (dx, dy) of a character is set in a buffer of charsize bytes a character. */
  ghost predicate SetInBuffer(buffer: seq<byte>, charsize: nat, chr: nat, dx: int, dy: int) {
    var at := chr * charsize + dy;
    0 <= dx < 8 && 0 <= at < |buffer| && (buffer[at] as int) / [128, 64, 32, 16, 8, 4, 2, 1][dx] % 2 == 1
  }

  /** Pixel (x, y) of a plain text on a cleared framebuffer, from the bytes of the font: cells half as
      wide as high. */
  ghost function TextPixel(buffer: seq<byte>, charsize: nat, pixelsPerScanline: nat, height: nat,
                           text: seq<Written>, bg: color, x: nat, y: nat): color
    requires 2 <= charsize <= 64 && charsize / 2 <= pixelsPerScanline && charsize <= height
  {
    var charWidth := charsize / 2;
    TextCell(buffer, charsize, pixelsPerScanline / charWidth, height / charsize, text, bg,
             y / charsize, x / charWidth, x % charWidth, y % charsize)
  }

  /** Pixel (dx, dy) of cell (c, r): the last lines of the text, each of as many characters as fit. */
  ghost function TextCell(buffer: seq<byte>, charsize: nat, columns: int, rows: int, text: seq<Written>, bg: color,
                          r: int, c: int, dx: int, dy: int): color
    requires columns != 0
  {
    var lines := |text| / columns + 1;
    var above := if lines <= rows then 0 else lines - rows;
    var i := (above + r) * columns + c;
    if r < rows && c < columns && 0 <= i < |text| && SetInBuffer(buffer, charsize, text[i].chr, dx, dy)
      then text[i].fg else bg
  }

  /** The pixel (dx, dy) of character i of a text, from the bytes of the font; background if there is no
      such character. */
  lemma CharacterShade(font: Font, bg: color, text: seq<Written>, i: int, dx: nat, dy: nat)
    requires font.Usable() && dy < font.charsize
    ensures font.CellPixel(CellAt(text, i), bg, dx, dy)
            == if 0 <= i < |text| && SetInBuffer(font.buffer, font.charsize, text[i].chr, dx, dy) then text[i].fg else bg
  {
    if 0 <= i < |text| {
      GlyphInBuffer(font, text[i].chr, text[i].fg, bg, dx, dy);
    }
  }

  /** The pixels of a plain text. */
  lemma PlainShade(geo: Geometry, font: Font, bg: color, text: seq<Written>, x: nat, y: nat, r: nat, c: nat, dx: nat, dy: nat)
    requires geo.Usable() && font.Usable() && font.charsize == geo.charsize && IsPlain(text)
    requires r == y / geo.charsize && dy == y % geo.charsize && c == x / (geo.charsize / 2) && dx == x % (geo.charsize / 2)
    ensures dy < font.charsize
    ensures var size := geo.GridSize();
            Shade(geo, font, bg, Run(Cleared(size), text, size).grid, x, y)
            == if r < size.rows && c < size.columns
               then font.CellPixel(CellAt(text, (Above(|text|, size) + r) * size.columns + c), bg, dx, dy) else bg
  {
    hide Run, Shade, Cleared, Above, CellAt;
    var size := geo.GridSize();
    ShadeIs(geo, font, bg, Run(Cleared(size), text, size).grid, x, y, r, c, dx, dy);
    if r < size.rows && c < size.columns {
      PlainCell(text, size, r, c);
    }
  }

  /** The same from the bytes of the font, cell by cell. */
  lemma CellShade(font: Font, bg: color, text: seq<Written>, size: Size, r: nat, c: nat, dx: nat, dy: nat)
    requires font.Usable() && dy < font.charsize && size.Usable()
    ensures (if r < size.rows && c < size.columns
             then font.CellPixel(CellAt(text, (Above(|text|, size) + r) * size.columns + c), bg, dx, dy) else bg)
            == TextCell(font.buffer, font.charsize, size.columns, size.rows, text, bg, r, c, dx, dy)
  {
    hide CellAt, SetInBuffer, Font.CellPixel;
    CharacterShade(font, bg, text, (Above(|text|, size) + r) * size.columns + c, dx, dy);
  }

  lemma PlainPixel(geo: Geometry, font: Font, bg: color, text: seq<Written>, x: nat, y: nat)
    requires geo.Usable() && font.Usable() && font.charsize == geo.charsize && IsPlain(text)
    ensures Shade(geo, font, bg, Run(Cleared(geo.GridSize()), text, geo.GridSize()).grid, x, y)
            == TextPixel(font.buffer, geo.charsize, geo.pixelsPerScanline, geo.height, text, bg, x, y)
  {
    hide Run, Shade, Cleared, CellAt, Above, TextCell, Font.CellPixel;
    GridSizeIs(geo);
    QuotientIsDivision(y, geo.charsize);
    QuotientIsDivision(x, geo.charsize / 2);
    var r, dy, c, dx := y / geo.charsize, y % geo.charsize, x / (geo.charsize / 2), x % (geo.charsize / 2);
    PlainShade(geo, font, bg, text, x, y, r, c, dx, dy);
    CellShade(font, bg, text, geo.GridSize(), r, c, dx, dy);
  }

  predicate InBox(geo: Geometry, x0: int, y0: int, x: int, y: int) {
    x0 <= x < x0 + geo.CharWidth() && y0 <= y < y0 + geo.charsize
  }

  /** A pixel of cell (c, r). */
  predicate InCell(geo: Geometry, c: nat, r: nat, x: nat, y: nat) {
    InBox(geo, c * geo.CharWidth(), r * geo.charsize, x, y)
  }

  lemma CellInside(geo: Geometry, c: nat, r: nat)
    requires geo.Usable() && c < geo.GridSize().columns && r < geo.GridSize().rows
    ensures c * geo.CharWidth() + geo.CharWidth() <= geo.pixelsPerScanline
    ensures r * geo.charsize + geo.charsize <= geo.height
  {
    var size := geo.GridSize();
    QuotientIff(geo.pixelsPerScanline, size.columns, geo.CharWidth());
    QuotientIff(geo.height, size.rows, geo.charsize);
    LineStarts(c, size.columns, geo.CharWidth());
    LineStarts(r, size.rows, geo.charsize);
  }

  /** Putting a cell repaints exactly its own pixels. */
  lemma ShadeOfPut(geo: Geometry, font: Font, bg: color, s: Screen, cell: Cell, x: nat, y: nat)
    requires geo.Usable() && font.Usable() && font.charsize == geo.charsize && Good(s, geo.GridSize())
    ensures Shade(geo, font, bg, Put(s, cell).grid, x, y)
            == if InCell(geo, s.x, s.y, x, y)
               then font.CellPixel(cell, bg, x - s.x * geo.CharWidth(), y - s.y * geo.charsize)
               else Shade(geo, font, bg, s.grid, x, y)
  {
    QuotientIff(x, s.x, geo.CharWidth());
    QuotientIff(y, s.y, geo.charsize);
  }

  /** Scrolling moves the picture up by one glyph, whatever remains below the last line. */
  lemma ShadeOfScroll(geo: Geometry, font: Font, bg: color, grid: seq<Line>, x: nat, y: nat)
    requires geo.Usable() && font.Usable() && font.charsize == geo.charsize && Fits(grid, geo.GridSize())
    requires y < geo.height
    ensures Shade(geo, font, bg, Scrolled(grid, geo.GridSize()), x, y)
            == if y < geo.height - geo.charsize then Shade(geo, font, bg, grid, x, y + geo.charsize) else bg
  {
    var n := geo.charsize;
    assert Quotient(y + n, n) == Quotient(y, n) + 1 && Remainder(y + n, n) == Remainder(y, n);
    LinesBelow(y, geo.height, n);
  }

  lemma {:induction false} LinesBelow(y: nat, height: nat, n: nat)
    requires 0 < n <= height && y < height
    ensures y >= height - n ==> Quotient(y, n) + 1 >= Quotient(height, n)
    decreases y
  {
    if y >= n && height - n >= n {
      LinesBelow(y - n, height - n, n);
    }
  }

  lemma ShadeOfBlank(geo: Geometry, font: Font, bg: color, x: nat, y: nat)
    requires geo.Usable() && font.Usable() && font.charsize == geo.charsize
    ensures Shade(geo, font, bg, BlankGrid(geo.GridSize()), x, y) == bg
  {}

  // ---------------------------------------------------------------------------
  // The cursor
  // ---------------------------------------------------------------------------

  /** Where what comes back from under a cursor shows: a screen of one cell holding a full block,
      erased at home. The pixel at (0, 13) is the cursor's; it is lit before and blank after. */
  lemma ErasedBlock() returns (geo: Geometry, font: Font, s: Screen)
    ensures geo == Geometry(16, 8, 16) && geo.GridSize() == Size(1, 1) && Good(s, geo.GridSize()) && s.x == 0 && s.y == 0
    ensures font.Usable() && font.charsize == 16 && Covers(0, 0, 0, 13)
    ensures Shade(geo, font, 0, s.grid, 0, 13) == 1
    ensures Shade(geo, font, 0, Put(s, Glyph(SPACE, 1)).grid, 0, 13) == 0
  {
    geo := Geometry(16, 8, 16);
    font := Font(seq(2048, i => if 16 <= i < 32 then 255 else 0), 16);
    s := Screen([[Glyph(1, 1)]], 0, 0);
    assert geo.CharWidth() == 8 && Quotient(8, 8) == 1 && Quotient(16, 16) == 1;
    ShadeOfPut(geo, font, 0, s, Glyph(SPACE, 1), 0, 13);
    assert font.Row(1, 13) == 255 && font.Row(SPACE, 13) == 0;
    assert Bit(255, 0) && !Bit(0, 0);
  }

  /** `mCursorBuffer`: the last three of 16 rows. */
  const CURSOR: seq<byte> := [0, 0, 0, 0, 0, 0, 0, 0, 0, 0, 0, 0, 0, 255, 255, 255]

  /** The cursor image covers this pixel when drawn in cell (c, r) of 8 by 16 pixels. */
  predicate Covers(c: int, r: int, x: int, y: int) {
    c * 8 <= x < c * 8 + 8 && r * 16 + 13 <= y < r * 16 + 16
  }

  /** A pixel after printing in the last cell with the cursor shown in `color`. The cursor was drawn at
      the start of the last line before the screen scrolled: its image has moved to the line above,
      unless the printed character replaced it, and what was saved from under it comes back. */
  function ScrolledImage(geo: Geometry, font: Font, bg: color, fg: color, before: seq<Line>, after: seq<Line>,
                         x: nat, y: nat): color
    requires geo.Usable() && font.Usable() && font.charsize == geo.charsize
    requires Fits(before, geo.GridSize()) && Fits(after, geo.GridSize())
  {
    var size := geo.GridSize();
    if size.columns > 1 && Covers(0, size.rows - 2, x, y) then fg
    else if Covers(0, size.rows - 1, x, y) then Shade(geo, font, bg, before, x, y)
    else Shade(geo, font, bg, after, x, y)
  }

  /** Nothing stands where the cursor covers the start of the last line. */
  ghost predicate BlankAtLastLine(geo: Geometry, font: Font, bg: color, grid: seq<Line>)
    requires geo.Usable() && font.Usable() && font.charsize == geo.charsize && Fits(grid, geo.GridSize())
  {
    forall x, y | 0 <= x && 0 <= y && Covers(0, geo.GridSize().rows - 1, x, y) :: Shade(geo, font, bg, grid, x, y) == bg
  }

  /** The scrolled grid where the cursor covers the starts of its last two lines. */
  lemma ScrolledStarts(geo: Geometry, font: Font, bg: color, s: Screen, cell: Cell, x: nat, y: nat)
    requires geo.Usable() && font.Usable() && font.charsize == geo.charsize == 16 && Good(s, geo.GridSize())
    requires AtEnd(s, geo.GridSize())
    ensures var size := geo.GridSize();
            var after := Scrolled(Put(s, cell).grid, size);
            && (Covers(0, size.rows - 1, x, y) ==> x < geo.pixelsPerScanline && y < geo.height
                                                   && Shade(geo, font, bg, after, x, y) == bg)
            && (Covers(0, size.rows - 2, x, y) ==> x < geo.pixelsPerScanline && y + 16 < geo.height
                                                   && Covers(0, size.rows - 1, x, y + 16))
            && (Covers(0, size.rows - 2, x, y) && size.columns > 1 ==>
                  Shade(geo, font, bg, after, x, y) == Shade(geo, font, bg, s.grid, x, y + 16))
  {
    var size := geo.GridSize();
    CellInside(geo, 0, size.rows - 1);
    if Covers(0, size.rows - 1, x, y) {
      QuotientIff(y, size.rows - 1, 16);
    }
    if Covers(0, size.rows - 2, x, y) && size.columns > 1 {
      ShadeOfScroll(geo, font, bg, Put(s, cell).grid, x, y);
      ShadeOfPut(geo, font, bg, s, cell, x, y + 16);
    }
  }

  /** The picture is right after all exactly when nothing stood at the start of the last line, and the
      image left on the line above is none or has the colour of the background. */
  lemma ScrolledImageIff(geo: Geometry, font: Font, bg: color, fg: color, s: Screen, cell: Cell)
    requires geo.Usable() && font.Usable() && font.charsize == geo.charsize == 16 && Good(s, geo.GridSize())
    requires AtEnd(s, geo.GridSize())
    ensures var size := geo.GridSize();
            var after := Scrolled(Put(s, cell).grid, size);
            (forall x, y | 0 <= x < geo.pixelsPerScanline && 0 <= y < geo.height ::
               ScrolledImage(geo, font, bg, fg, s.grid, after, x, y) == Shade(geo, font, bg, after, x, y))
            <==> BlankAtLastLine(geo, font, bg, s.grid) && (fg == bg || size.columns == 1 || size.rows == 1)
  {
    var size := geo.GridSize();
    var after := Scrolled(Put(s, cell).grid, size);
    if forall x, y | 0 <= x < geo.pixelsPerScanline && 0 <= y < geo.height ::
         ScrolledImage(geo, font, bg, fg, s.grid, after, x, y) == Shade(geo, font, bg, after, x, y) {
      forall x, y | 0 <= x && 0 <= y && Covers(0, size.rows - 1, x, y)
        ensures Shade(geo, font, bg, s.grid, x, y) == bg
      {
        ScrolledStarts(geo, font, bg, s, cell, x, y);
        assert ScrolledImage(geo, font, bg, fg, s.grid, after, x, y) == Shade(geo, font, bg, s.grid, x, y);
      }
      if size.columns > 1 && size.rows > 1 {
        var y := (size.rows - 2) * 16 + 13;
        assert Covers(0, size.rows - 2, 0, y);
        ScrolledStarts(geo, font, bg, s, cell, 0, y);
        assert ScrolledImage(geo, font, bg, fg, s.grid, after, 0, y) == fg;
        assert Covers(0, size.rows - 1, 0, y + 16);
      }
    }
    if BlankAtLastLine(geo, font, bg, s.grid) && (fg == bg || size.columns == 1 || size.rows == 1) {
      forall x, y | 0 <= x < geo.pixelsPerScanline && 0 <= y < geo.height
        ensures ScrolledImage(geo, font, bg, fg, s.grid, after, x, y) == Shade(geo, font, bg, after, x, y)
      {
        ScrolledStarts(geo, font, bg, s, cell, x, y);
      }
    }
  }

  lemma CursorBits(x: nat, y: nat)
    requires x < 8 && y < 16
    ensures (y * 8 + x) / 8 == y && x % 8 == x && (Bit(CURSOR[y], x) <==> y >= 13)
  {
    assert forall k | 0 <= k < 8 :: Bit(255, k) by {
      assert forall k | 0 <= k < 8 :: 255 / MASK_VALUES[k] % 2 == 1;
    }
  }
}

/** `PrimitiveConsole`: pixels in a framebuffer refining the terminal grid. */
module Console {
  import opened Terminal
  import opened ConsoleImage

  const BLACK: color := 0xFF00_0000
  const WHITE: color := 0xFFFF_FFFF

  class PrimitiveConsole {
    /** Pixel (x, y) is element [y, x]; a scanline is a row. */
    const fb: array2<color>
    const geo: Geometry
    const font: Font
    const bg: color
    var fg: color
    var cursorX: int
    var cursorY: int
    /** mPreviousRenderedPosition, HasDrawnCursor, CursorEnabled, mPreviousCursorBuffer. */
    var prevX: int
    var prevY: int
    var hasDrawnCursor: bool
    var cursorEnabled: bool
    const saved: array<color>

    /** The grid whose picture the framebuffer holds. */
    ghost var grid: seq<Line>

    /** The constructor of the source: white text, the cursor at home and not drawn. */
    constructor (frameBuffer: array2<color>, geometry: Geometry, f: Font, background: color, buffer: array<color>)
      requires geometry.Usable() && f.Usable() && f.charsize == geometry.charsize && buffer.Length == 128
      requires frameBuffer.Length0 == geometry.height && frameBuffer.Length1 == geometry.pixelsPerScanline
      ensures CursorValid() && !cursorEnabled && !hasDrawnCursor && cursorX == 0 && cursorY == 0
      ensures fb == frameBuffer && geo == geometry && font == f && bg == background && saved == buffer && fg == WHITE
    {
      fb, geo, font, bg, saved := frameBuffer, geometry, f, background, buffer;
      fg := WHITE;
      cursorX, cursorY, prevX, prevY := 0, 0, 0, 0;
      hasDrawnCursor, cursorEnabled := false, false;
      grid := BlankGrid(geometry.GridSize());
    }

    ghost predicate Sized() {
      && geo.Usable() && font.Usable() && font.charsize == geo.charsize
      && fb.Length0 == geo.height && fb.Length1 == geo.pixelsPerScanline && saved.Length == 128
    }

    function GridSize(): Size
      requires geo.Usable()
    {
      geo.GridSize()
    }

    /** Cells of 8 by 16 pixels; the cursor was last drawn inside the grid. */
    ghost predicate CursorFits()
      reads this
    {
      && geo.charsize == 16
      && geo.Usable() && 0 <= prevX < GridSize().columns && 0 <= prevY < GridSize().rows
    }

    /** A pixel of the picture: what was saved where the cursor is drawn. */
    ghost function Pixel(x: nat, y: nat): color
      requires Sized() && x < geo.pixelsPerScanline && y < geo.height
      reads this, fb, saved
    {
      if Covered(x, y) then saved[(x - prevX * 8) + (y - prevY * 16) * 8]
      else fb[y, x]
    }

    ghost predicate Shows()
      requires Sized() && Fits(grid, GridSize())
      reads this, fb, saved
    {
      forall x, y | 0 <= x < geo.pixelsPerScanline && 0 <= y < geo.height ::
        Pixel(x, y) == Shade(geo, font, bg, grid, x, y)
    }

    /** The picture is right wherever the cursor is not drawn. */
    ghost predicate ShowsAround()
      requires Sized() && Fits(grid, GridSize())
      reads this, fb
    {
      forall x, y | 0 <= x < geo.pixelsPerScanline && 0 <= y < geo.height && !Covered(x, y) ::
        fb[y, x] == Shade(geo, font, bg, grid, x, y)
    }

    ghost predicate Covered(x: nat, y: nat)
      reads this
    {
      hasDrawnCursor && Covers(prevX, prevY, x, y)
    }

    /** The state makes sense, whatever is on the screen: cursor and grid agree with the size, and the
        cursor is drawn exactly when it is enabled. */
    ghost predicate Ready()
      reads this
    {
      && Sized() && Fits(grid, GridSize()) && InGrid(cursorX, cursorY, GridSize())
      && cursorEnabled == hasDrawnCursor && (hasDrawnCursor ==> CursorFits())
    }

    /** Moreover the framebuffer is the picture of the grid, apart from a drawn cursor. */
    ghost predicate Valid()
      reads this, fb, saved
    {
      Ready() && Shows()
    }

    ghost function Abstract(): Screen
      reads this
    {
      Screen(grid, cursorX, cursorY)
    }

    method WritePixel(x: int, y: int, c: color)
      requires Sized()
      modifies fb
      ensures forall j, i | 0 <= j < fb.Length0 && 0 <= i < fb.Length1 ::
                fb[j, i] == if j == y && i == x then c else old(fb[j, i])
    {
      if x >= geo.pixelsPerScanline || x < 0 {
        return;
      }
      if y >= geo.height || y < 0 {
        return;
      }
      fb[y, x] := c;
    }

    method ReadPixel(x: int, y: int) returns (c: color)
      requires Sized()
      ensures c == if 0 <= x < geo.pixelsPerScanline && 0 <= y < geo.height then fb[y, x] else BLACK
    {
      if x >= geo.pixelsPerScanline || x < 0 {
        return BLACK;
      }
      if y >= geo.height || y < 0 {
        return BLACK;
      }
      c := fb[y, x];
    }

    /** A glyph, scanline by scanline; every pixel of the cell gets one of the two colours. */
    method PutChar(chr: glyph, fColor: color, bColor: color, xOff: nat, yOff: nat)
      requires Sized()
      modifies fb
      ensures forall j, i | 0 <= j < fb.Length0 && 0 <= i < fb.Length1 ::
                fb[j, i] == if InCell(geo, xOff, yOff, i, j)
                            then font.GlyphPixel(chr, fColor, bColor, i - xOff * geo.CharWidth(), j - yOff * geo.charsize)
                            else old(fb[j, i])
    {
      PutGlyph(chr, fColor, bColor, xOff * geo.CharWidth(), yOff * geo.charsize);
    }

    /** The same for one pixel of the cell, from the bytes of the font. */
    method PutCharPixel(chr: glyph, fColor: color, bColor: color, xOff: nat, yOff: nat, ghost dx: nat, ghost dy: nat,
                        ghost x: nat, ghost y: nat)
      requires Sized() && dx < geo.charsize / 2 && dy < geo.charsize
      requires x == xOff * (geo.charsize / 2) + dx < geo.pixelsPerScanline && y == yOff * geo.charsize + dy < geo.height
      modifies fb
      ensures 0 <= chr * geo.charsize + dy < |font.buffer|
      ensures fb[y, x] == if dx < 8 && font.buffer[chr * geo.charsize + dy] / [128, 64, 32, 16, 8, 4, 2, 1][dx] % 2 == 1
                          then fColor else bColor
    {
      hide InCell, InBox, Font.GlyphPixel, Geometry.CharWidth;
      PutChar(chr, fColor, bColor, xOff, yOff);
      InOwnCell(xOff, yOff, dx, dy, x, y);
      assert fb[y, x] == font.GlyphPixel(chr, fColor, bColor, dx, dy);
      GlyphInBuffer(font, chr, fColor, bColor, dx, dy);
    }

    lemma InOwnCell(xOff: nat, yOff: nat, dx: nat, dy: nat, x: nat, y: nat)
      requires dx < geo.charsize / 2 && dy < geo.charsize
      requires x == xOff * (geo.charsize / 2) + dx && y == yOff * geo.charsize + dy
      ensures InCell(geo, xOff, yOff, x, y) && x - xOff * geo.CharWidth() == dx && y - yOff * geo.charsize == dy
    {}

    /** The loops of `PutChar`, from the pixel at the top left. */
    method PutGlyph(chr: glyph, fColor: color, bColor: color, x0: nat, y0: nat)
      requires Sized()
      modifies fb
      ensures forall j, i | 0 <= j < fb.Length0 && 0 <= i < fb.Length1 ::
                fb[j, i] == if InBox(geo, x0, y0, i, j)
                            then font.GlyphPixel(chr, fColor, bColor, i - x0, j - y0) else old(fb[j, i])
    {
      var dy: nat := 0;
      while dy < geo.charsize
        invariant dy <= geo.charsize
        invariant forall j, i | 0 <= j < fb.Length0 && 0 <= i < fb.Length1 ::
                    fb[j, i] == if y0 <= j < y0 + dy && x0 <= i < x0 + geo.CharWidth()
                                then font.GlyphPixel(chr, fColor, bColor, i - x0, j - y0) else old(fb[j, i])
      {
        PutScanline(chr, fColor, bColor, x0, y0, dy);
        dy := dy + 1;
      }
    }

    /** One scanline of a glyph. */
    method PutScanline(chr: glyph, fColor: color, bColor: color, x0: nat, y0: nat, dy: nat)
      requires Sized() && dy < geo.charsize
      modifies fb
      ensures forall j, i | 0 <= j < fb.Length0 && 0 <= i < fb.Length1 ::
                fb[j, i] == if j == y0 + dy && x0 <= i < x0 + geo.CharWidth()
                            then font.GlyphPixel(chr, fColor, bColor, i - x0, dy) else old(fb[j, i])
    {
      var dx: nat := 0;
      while dx < geo.CharWidth()
        invariant dx <= geo.CharWidth()
        invariant forall j, i | 0 <= j < fb.Length0 && 0 <= i < fb.Length1 ::
                    fb[j, i] == if j == y0 + dy && x0 <= i < x0 + dx
                                then font.GlyphPixel(chr, fColor, bColor, i - x0, dy) else old(fb[j, i])
      {
        WritePixel(x0 + dx, y0 + dy, bColor);
        if Bit(font.Row(chr, dy), dx) {
          WritePixel(x0 + dx, y0 + dy, fColor);
        }
        dx := dx + 1;
      }
    }

    /** `memcpy` of one scanline. */
    method CopyScanline(to: nat, from: nat)
      requires Sized() && to < from < geo.height
      modifies fb
      ensures forall j, i | 0 <= j < fb.Length0 && 0 <= i < fb.Length1 ::
                fb[j, i] == if j == to then old(fb[from, i]) else old(fb[j, i])
    {
      var x: nat := 0;
      while x < geo.pixelsPerScanline
        invariant x <= geo.pixelsPerScanline
        invariant forall j, i | 0 <= j < fb.Length0 && 0 <= i < fb.Length1 ::
                    fb[j, i] == if j == to && i < x then old(fb[from, i]) else old(fb[j, i])
      {
        fb[to, x] := fb[from, x];
        x := x + 1;
      }
    }

    /** `memset64` of one scanline. */
    method FillScanline(to: nat, c: color)
      requires Sized() && to < geo.height
      modifies fb
      ensures forall j, i | 0 <= j < fb.Length0 && 0 <= i < fb.Length1 ::
                fb[j, i] == if j == to then c else old(fb[j, i])
    {
      var x: nat := 0;
      while x < geo.pixelsPerScanline
        invariant x <= geo.pixelsPerScanline
        invariant forall j, i | 0 <= j < fb.Length0 && 0 <= i < fb.Length1 ::
                    fb[j, i] == if j == to && i < x then c else old(fb[j, i])
      {
        fb[to, x] := c;
        x := x + 1;
      }
    }

    /** `ScrollDown()`: the whole framebuffer moves up by a glyph. */
    method ScrollDown()
      requires Sized()
      modifies fb
      ensures forall j, i | 0 <= j < fb.Length0 && 0 <= i < fb.Length1 ::
                fb[j, i] == if j < geo.height - geo.charsize then old(fb[j + geo.charsize, i]) else bg
    {
      var v: nat := 0;
      while v < geo.height - geo.charsize
        invariant v <= geo.height - geo.charsize
        invariant forall j, i | 0 <= j < fb.Length0 && 0 <= i < fb.Length1 ::
                    fb[j, i] == if j < v then old(fb[j + geo.charsize, i]) else old(fb[j, i])
      {
        CopyScanline(v, v + geo.charsize);
        v := v + 1;
      }
      while v < geo.height
        invariant geo.height - geo.charsize <= v <= geo.height
        invariant forall j, i | 0 <= j < fb.Length0 && 0 <= i < fb.Length1 ::
                    fb[j, i] == if j < geo.height - geo.charsize then old(fb[j + geo.charsize, i])
                                else if j < v then bg else old(fb[j, i])
      {
        FillScanline(v, bg);
        v := v + 1;
      }
    }

    /** Scrolling shows the scrolled grid, as long as no cursor is scrolled with it. */
    method ScrollGrid()
      requires Sized() && Fits(grid, GridSize())
      modifies fb, this`grid
      ensures grid == Scrolled(old(grid), GridSize())
      ensures old(Shows()) && !hasDrawnCursor ==> Shows()
      ensures forall j, i | 0 <= j < fb.Length0 && 0 <= i < fb.Length1 ::
                fb[j, i] == if j < geo.height - geo.charsize then old(fb[j + geo.charsize, i]) else bg
    {
      ScrollDown();
      grid := Scrolled(grid, GridSize());
      if old(Shows()) && !hasDrawnCursor {
        forall x, y | 0 <= x < geo.pixelsPerScanline && 0 <= y < geo.height
          ensures fb[y, x] == Shade(geo, font, bg, grid, x, y)
        {
          ShadeOfScroll(geo, font, bg, old(grid), x, y);
          if y < geo.height - geo.charsize {
            assert old(Pixel(x, y + geo.charsize)) == Shade(geo, font, bg, old(grid), x, y + geo.charsize);
          }
        }
      }
    }

    /** `Clear(color)`. In the background colour, the picture of a blank grid. */
    method Clear(c: color)
      requires Sized()
      modifies fb, this`grid, this`cursorX, this`cursorY
      ensures forall j, i | 0 <= j < fb.Length0 && 0 <= i < fb.Length1 :: fb[j, i] == c
      ensures cursorX == 0 && cursorY == 0 && grid == BlankGrid(GridSize())
      ensures c == bg && !hasDrawnCursor ==> Shows()
    {
      var v: nat := 0;
      while v < geo.height
        invariant v <= geo.height
        invariant forall j, i | 0 <= j < v && 0 <= i < fb.Length1 :: fb[j, i] == c
      {
        FillScanline(v, c);
        v := v + 1;
      }
      cursorX, cursorY := 0, 0;
      grid := BlankGrid(GridSize());
      forall x, y | 0 <= x < geo.pixelsPerScanline && 0 <= y < geo.height
        ensures Shade(geo, font, bg, grid, x, y) == bg
      {
        ShadeOfBlank(geo, font, bg, x, y);
      }
    }

    /** `ScrollDown(lines)`; scrolling everything away is clearing, which also sends the cursor home. */
    method ScrollDownLines(lines: nat)
      requires Sized() && Fits(grid, GridSize()) && !hasDrawnCursor
      modifies fb, this`grid, this`cursorX, this`cursorY
      ensures grid == ScrolledBy(old(grid), lines, GridSize()) && (old(Shows()) ==> Shows())
      ensures lines < GridSize().rows ==> cursorX == old(cursorX) && cursorY == old(cursorY)
      ensures lines >= GridSize().rows ==> cursorX == 0 && cursorY == 0
    {
      if lines == 0 {
        return;
      }
      if lines >= GridSize().rows {
        ScrolledAway(grid, lines, GridSize());
        Clear(bg);
        return;
      }
      var n: nat := 0;
      while n < lines
        invariant n <= lines && cursorX == old(cursorX) && cursorY == old(cursorY)
        invariant grid == ScrolledBy(old(grid), n, GridSize()) && (old(Shows()) ==> Shows())
      {
        ScrollGrid();
        n := n + 1;
      }
    }

    /** Drawing a cell shows it, except where the cursor is drawn; unless the cursor is drawn in that
        very cell, the whole picture is right. */
    method DrawCell(chr: glyph, c: color, x: nat, y: nat)
      requires Sized() && Fits(grid, GridSize()) && x < GridSize().columns && y < GridSize().rows
      requires hasDrawnCursor ==> CursorFits()
      modifies fb, this`grid
      ensures grid == Put(Screen(old(grid), x, y), Glyph(chr, c)).grid
      ensures old(ShowsAround()) ==> ShowsAround()
      ensures old(Shows()) && (hasDrawnCursor ==> !(x == prevX && y == prevY)) ==> Shows()
      ensures forall j, i | 0 <= j < fb.Length0 && 0 <= i < fb.Length1 ::
                if InCell(geo, x, y, i, j) then fb[j, i] == Shade(geo, font, bg, grid, i, j)
                else fb[j, i] == old(fb[j, i])
    {
      PutChar(chr, c, bg, x, y);
      grid := Put(Screen(grid, x, y), Glyph(chr, c)).grid;
      forall i, j | 0 <= i < geo.pixelsPerScanline && 0 <= j < geo.height
        ensures Shade(geo, font, bg, grid, i, j)
                == if InCell(geo, x, y, i, j) then fb[j, i] else Shade(geo, font, bg, old(grid), i, j)
      {
        ShadeOfPut(geo, font, bg, Screen(old(grid), x, y), Glyph(chr, c), i, j);
      }
      if old(Shows()) && (hasDrawnCursor ==> !(x == prevX && y == prevY)) {
        forall i, j | 0 <= i < geo.pixelsPerScanline && 0 <= j < geo.height
          ensures Pixel(i, j) == Shade(geo, font, bg, grid, i, j)
        {
          assert old(Pixel(i, j)) == Shade(geo, font, bg, old(grid), i, j);
          if Covered(i, j) {
            ApartFromCursor(x, y, i, j);
          }
        }
      }
    }

    lemma ApartFromCursor(x: nat, y: nat, i: nat, j: nat)
      requires CursorFits() && !(x == prevX && y == prevY) && Covers(prevX, prevY, i, j)
      ensures !InCell(geo, x, y, i, j)
    {}

    /** One row of putting back the pixels under the cursor. */
    method RestoreRow(x0: nat, y0: nat, y: nat)
      requires Sized() && y < 16
      modifies fb
      ensures forall j, i | 0 <= j < fb.Length0 && 0 <= i < fb.Length1 ::
                fb[j, i] == if j == y0 + y && x0 <= i < x0 + 8 && y >= 13 then saved[(i - x0) + y * 8] else old(fb[j, i])
    {
      var x: nat := 0;
      while x < 8
        invariant x <= 8
        invariant forall j, i | 0 <= j < fb.Length0 && 0 <= i < fb.Length1 ::
                    fb[j, i] == if j == y0 + y && x0 <= i < x0 + x && y >= 13 then saved[(i - x0) + y * 8]
                                else old(fb[j, i])
      {
        CursorBits(x, y);
        var bite := (y * 8 + x) / 8;
        if Bit(CURSOR[bite], x % 8) {
          WritePixel(x0 + x, y0 + y, saved[x + y * 8]);
        }
        x := x + 1;
      }
    }

    /** The first half of `UpdateCursor`, and `DisableCursor`: remove the drawn cursor. */
    method RestorePixels()
      requires Sized() && hasDrawnCursor && CursorFits()
      modifies fb
      ensures forall j, i | 0 <= j < fb.Length0 && 0 <= i < fb.Length1 :: fb[j, i] == old(Pixel(i, j))
    {
      var x0: nat, y0: nat := prevX * 8, prevY * 16;
      var y: nat := 0;
      while y < geo.charsize
        invariant y <= 16
        invariant forall j, i | 0 <= j < fb.Length0 && 0 <= i < fb.Length1 ::
                    fb[j, i] == if x0 <= i < x0 + 8 && y0 + 13 <= j < y0 + y then saved[(i - x0) + (j - y0) * 8]
                                else old(fb[j, i])
      {
        RestoreRow(x0, y0, y);
        y := y + 1;
      }
    }

    /** One row of saving what is there and drawing the cursor over it. */
    method DrawRow(x0: nat, y0: nat, y: nat)
      requires Sized() && y < 16 && x0 + 8 <= geo.pixelsPerScanline && y0 + y < geo.height
      modifies fb, saved
      ensures forall j, i | 0 <= j < fb.Length0 && 0 <= i < fb.Length1 ::
                fb[j, i] == if j == y0 + y && x0 <= i < x0 + 8 && y >= 13 then fg else old(fb[j, i])
      ensures forall k | 0 <= k < 128 ::
                saved[k] == if y * 8 <= k < y * 8 + 8 then old(fb[y0 + y, x0 + (k - y * 8)]) else old(saved[k])
    {
      var x: nat := 0;
      while x < 8
        invariant x <= 8
        invariant forall j, i | 0 <= j < fb.Length0 && 0 <= i < fb.Length1 ::
                    fb[j, i] == if j == y0 + y && x0 <= i < x0 + x && y >= 13 then fg else old(fb[j, i])
        invariant forall k | 0 <= k < 128 ::
                    saved[k] == if y * 8 <= k < y * 8 + x then old(fb[y0 + y, x0 + (k - y * 8)]) else old(saved[k])
      {
        var p := ReadPixel(x0 + x, y0 + y);
        saved[x + y * 8] := p;
        CursorBits(x, y);
        var bite := (y * 8 + x) / 8;
        if Bit(CURSOR[bite], x % 8) {
          WritePixel(x0 + x, y0 + y, fg);
        }
        x := x + 1;
      }
    }

    /** The second half of `UpdateCursor`. */
    method DrawPixels(x0: nat, y0: nat)
      requires Sized() && x0 + 8 <= geo.pixelsPerScanline && y0 + 16 <= geo.height
      modifies fb, saved
      ensures forall j, i | 0 <= j < fb.Length0 && 0 <= i < fb.Length1 ::
                fb[j, i] == if x0 <= i < x0 + 8 && y0 + 13 <= j < y0 + 16 then fg else old(fb[j, i])
      ensures forall j, i | y0 <= j < y0 + 16 && x0 <= i < x0 + 8 :: saved[(i - x0) + (j - y0) * 8] == old(fb[j, i])
    {
      var y: nat := 0;
      while y < 16
        invariant y <= 16
        invariant forall j, i | 0 <= j < fb.Length0 && 0 <= i < fb.Length1 ::
                    fb[j, i] == if x0 <= i < x0 + 8 && y0 + 13 <= j < y0 + y then fg else old(fb[j, i])
        invariant forall j, i | y0 <= j < y0 + y && x0 <= i < x0 + 8 ::
                    saved[(i - x0) + (j - y0) * 8] == old(fb[j, i])
      {
        DrawRow(x0, y0, y);
        y := y + 1;
      }
    }

    /** The cursor state makes sense, whatever is on the screen. */
    ghost predicate CursorValid()
      reads this
    {
      && Sized() && InGrid(cursorX, cursorY, GridSize())
      && (hasDrawnCursor ==> CursorFits()) && (cursorEnabled ==> geo.charsize == 16)
    }

    /** `UpdateCursor`: wherever the cursor was and is drawn, the picture under it is the same. */
    method UpdateCursor()
      requires CursorValid()
      modifies fb, saved, this`prevX, this`prevY, this`hasDrawnCursor
      ensures CursorValid()
      ensures forall x, y | 0 <= x < geo.pixelsPerScanline && 0 <= y < geo.height :: Pixel(x, y) == old(Pixel(x, y))
      ensures cursorEnabled ==> hasDrawnCursor && prevX == cursorX && prevY == cursorY
      ensures cursorEnabled ==> CursorVisible(cursorX, cursorY)
      ensures cursorEnabled ==> forall x, y | 0 <= x < geo.pixelsPerScanline && 0 <= y < geo.height ::
                fb[y, x] == if cursorX * 8 <= x < cursorX * 8 + 8 && cursorY * 16 + 13 <= y < cursorY * 16 + 16 then fg
                            else old(Pixel(x, y))
      ensures !cursorEnabled ==> hasDrawnCursor == old(hasDrawnCursor) && prevX == old(prevX) && prevY == old(prevY)
    {
      if !cursorEnabled {
        return;
      }
      CellInside(geo, cursorX, cursorY);
      if hasDrawnCursor {
        RestorePixels();
      }
      prevX, prevY := cursorX, cursorY;
      DrawPixels(cursorX * 8, cursorY * 16);
      hasDrawnCursor := true;
    }

    /** The cursor's pixels in a cell have the foreground colour. */
    ghost predicate CursorVisible(c: int, r: int)
      requires Sized()
      reads this, fb
    {
      forall x, y | 0 <= x < geo.pixelsPerScanline && 0 <= y < geo.height && Covers(c, r, x, y) :: fb[y, x] == fg
    }

    method EnableCursor()
      requires CursorValid() && !hasDrawnCursor && geo.charsize == 16
      modifies fb, saved, this`prevX, this`prevY, this`hasDrawnCursor, this`cursorEnabled
      ensures CursorValid() && cursorEnabled && hasDrawnCursor && CursorVisible(cursorX, cursorY)
      ensures forall x, y | 0 <= x < geo.pixelsPerScanline && 0 <= y < geo.height ::
                fb[y, x] == if cursorX * 8 <= x < cursorX * 8 + 8 && cursorY * 16 + 13 <= y < cursorY * 16 + 16 then fg
                            else old(fb[y, x])
      ensures Fits(grid, GridSize()) && old(Fits(grid, GridSize()) && Shows()) ==> Shows()
      ensures forall x, y | 0 <= x < geo.pixelsPerScanline && 0 <= y < geo.height :: Pixel(x, y) == old(Pixel(x, y))
    {
      cursorEnabled := true;
      hasDrawnCursor := false;
      UpdateCursor();
    }

    method DisableCursor()
      requires Sized() && (hasDrawnCursor ==> CursorFits())
      modifies fb, this`hasDrawnCursor, this`cursorEnabled
      ensures !cursorEnabled && !hasDrawnCursor
      ensures forall x, y | 0 <= x < geo.pixelsPerScanline && 0 <= y < geo.height :: fb[y, x] == old(Pixel(x, y))
      ensures Fits(grid, GridSize()) && old(Fits(grid, GridSize()) && Shows()) ==> Shows()
    {
      if hasDrawnCursor {
        RestorePixels();
      }
      cursorEnabled := false;
      hasDrawnCursor := false;
    }

    /** `NewLine`: the cursor is taken off the screen while it scrolls. */
    method NewLine(lines: nat := 1)
      requires Ready()
      modifies fb, saved, this`grid, this`cursorX, this`cursorY, this`prevX, this`prevY, this`hasDrawnCursor, this`cursorEnabled
      ensures Ready() && cursorEnabled == old(cursorEnabled) && (old(Shows()) ==> Shows())
      ensures Abstract() == NewLines(old(Abstract()), lines, GridSize())
    {
      hide Shade, ScrolledBy;
      cursorX := 0;
      cursorY := cursorY + lines;
      var wasEnabled := TakeCursorOff();
      NewLinesByExcess(old(Abstract()), lines, GridSize());
      ScrollIntoView();
      PutCursorBack(wasEnabled);
    }

    method TakeCursorOff() returns (wasEnabled: bool)
      requires Sized() && Fits(grid, GridSize()) && cursorEnabled == hasDrawnCursor && (hasDrawnCursor ==> CursorFits())
      modifies fb, this`hasDrawnCursor, this`cursorEnabled
      ensures wasEnabled == old(cursorEnabled) && !cursorEnabled && !hasDrawnCursor
      ensures old(Shows()) ==> Shows()
    {
      wasEnabled := cursorEnabled;
      if cursorEnabled {
        DisableCursor();
      }
    }

    method PutCursorBack(wasEnabled: bool)
      requires Ready() && !cursorEnabled && (wasEnabled ==> geo.charsize == 16)
      modifies fb, saved, this`prevX, this`prevY, this`hasDrawnCursor, this`cursorEnabled
      ensures Ready() && cursorEnabled == wasEnabled && (old(Shows()) ==> Shows())
    {
      if wasEnabled {
        EnableCursor();
      }
    }

    /** The part of `NewLine` between taking the cursor off and putting it back. */
    method ScrollIntoView()
      requires Sized() && Fits(grid, GridSize()) && !hasDrawnCursor && cursorX == 0 && cursorY >= 0
      modifies fb, this`grid, this`cursorX, this`cursorY
      ensures cursorX == 0 && cursorY == old(cursorY) - Excess(old(cursorY), GridSize())
      ensures grid == ScrolledBy(old(grid), Excess(old(cursorY), GridSize()), GridSize())
      ensures old(Shows()) ==> Shows()
    {
      var bottom := GridSize().rows - 1;
      if cursorY > bottom {
        ScrollDownLines(cursorY - bottom);
        cursorX := 0;
        cursorY := bottom;
      }
    }

    /** `Backspace(nBackspace, RemoveChar)`: that many places less in reading order. Afterwards every
        pixel is that of the new grid, except that where the cursor was drawn the pixels saved from
        under it come back; so the picture is right exactly when they are those of the new grid, and
        in particular when no erased cell is the one the cursor was drawn in. */
    method Backspace(n: nat, remove: bool)
      requires Ready()
      modifies fb, saved, this`grid, this`cursorX, this`cursorY, this`prevX, this`prevY, this`hasDrawnCursor
      ensures Ready() && Abstract() == BackTimes(old(Abstract()), n, remove, fg, GridSize())
      ensures Place(cursorX, cursorY, GridSize()) == Less(old(Place(cursorX, cursorY, GridSize())), n)
      ensures old(Shows()) ==>
                forall x, y | 0 <= x < geo.pixelsPerScanline && 0 <= y < geo.height ::
                  Pixel(x, y) == if old(Covered(x, y)) then old(Pixel(x, y)) else Shade(geo, font, bg, grid, x, y)
      ensures old(Shows()) && (remove && cursorEnabled ==> old(ErasesElsewhereNow(n))) ==> Shows()
      ensures old(Shows() && prevX == cursorX && prevY == cursorY && Place(cursorX, cursorY, GridSize()) > 0) ==> Shows()
    {
      ErasesElsewhereIff(old(Abstract()), n, fg, GridSize());
      BackTimesPlace(old(Abstract()), n, remove, fg, GridSize());
      EraseMany(n, remove);
      UpdateCursor();
    }

    /** The loop of `Backspace`. */
    method EraseMany(n: nat, remove: bool)
      requires Ready()
      modifies fb, this`grid, this`cursorX, this`cursorY
      ensures Ready() && Abstract() == BackTimes(old(Abstract()), n, remove, fg, GridSize())
      ensures old(ShowsAround()) ==> ShowsAround()
      ensures old(Shows()) && (remove && cursorEnabled ==> old(ErasesElsewhereNow(n))) ==> Shows()
    {
      hide Shade;
      var k: nat := 0;
      while k < n
        invariant k <= n && Ready() && Abstract() == BackTimes(old(Abstract()), k, remove, fg, GridSize())
        invariant old(ShowsAround()) ==> ShowsAround()
        invariant old(Shows()) && (remove && cursorEnabled ==> old(ErasesElsewhereNow(n))) ==> Shows()
      {
        EraseOne(remove);
        k := k + 1;
      }
    }

    /** No cell that erasing n cells passes is the one the cursor is drawn in. */
    ghost predicate ErasesElsewhereNow(n: nat)
      requires Ready()
      reads this
    {
      ErasesElsewhere(Abstract(), n, fg, prevX, prevY, GridSize())
    }

    /** One round of the loop of `Backspace`. */
    method EraseOne(remove: bool)
      requires Ready()
      modifies fb, this`grid, this`cursorX, this`cursorY
      ensures Ready()
      ensures var b := Back(old(Abstract()), GridSize());
              Abstract() == if remove then Put(b, Glyph(SPACE, fg)) else b
      ensures old(ShowsAround()) ==> ShowsAround()
      ensures old(Shows()) && (remove && cursorEnabled ==> !(cursorX == prevX && cursorY == prevY)) ==> Shows()
    {
      hide Shade;
      StepBack();
      if remove {
        DrawCell(SPACE, fg, cursorX, cursorY);
      }
    }

    /** With the cursor drawn in the first cell, erasing there has no lasting effect under the cursor:
        its rows of the old character come back. */
    method EraseAtHome(n: nat)
      requires Valid() && cursorEnabled && n > 0
      requires cursorX == 0 && cursorY == 0 && prevX == 0 && prevY == 0
      modifies fb, saved, this`grid, this`cursorX, this`cursorY, this`prevX, this`prevY, this`hasDrawnCursor, this`cursorEnabled
      ensures Abstract() == Put(old(Abstract()), Glyph(SPACE, fg))
      ensures forall x, y | 0 <= x < 8 && 13 <= y < 16 :: fb[y, x] == Shade(geo, font, bg, old(grid), x, y)
    {
      CellInside(geo, 0, 0);
      EraseHome(Abstract(), n, fg, GridSize());
      Backspace(n, true);
      label Erased:
      DisableCursor();
      forall x, y | 0 <= x < 8 && 13 <= y < 16
        ensures fb[y, x] == Shade(geo, font, bg, old(grid), x, y)
      {
        assert Covers(0, 0, x, y) && old(Covered(x, y));
        assert fb[y, x] == old@Erased(Pixel(x, y)) == old(Pixel(x, y));
      }
    }

    /** The cursor arithmetic of `Backspace`. */
    method StepBack()
      requires geo.Usable() && 0 <= cursorX < GridSize().columns && 0 <= cursorY < GridSize().rows
      modifies this`cursorX, this`cursorY
      ensures Fits(grid, GridSize()) ==> Abstract() == Back(old(Abstract()), GridSize())
    {
      if cursorX <= 0 {
        cursorX := GridSize().columns;
        cursorY := cursorY - 1;
        if cursorY < 0 {
          cursorY := 0;
          cursorX := 1;
        }
      }
      cursorX := cursorX - 1;
      if cursorX < 0 {
        assert false;
      }
    }

    /** The cell after which the screen must scroll. */
    ghost predicate InLastCell()
      requires geo.Usable()
      reads this
    {
      cursorX == GridSize().columns - 1 && cursorY == GridSize().rows - 1
    }

    /** The default case of `WriteChar`. With the cursor drawn, printing in the last cell scrolls the
        cursor's image along: it stays behind on the line above, and what stood under it comes back on
        the new line. So the picture is right exactly when this is not the case, or cannot be seen. */
    method PrintChar(chr: glyph, c: color)
      requires Ready()
      modifies fb, saved, this`grid, this`cursorX, this`cursorY, this`prevX, this`prevY, this`hasDrawnCursor
      ensures Ready() && Abstract() == Print(old(Abstract()), Glyph(chr, c), GridSize())
      ensures old(Shows()) && !(cursorEnabled && old(InLastCell())) ==> Shows()
      ensures old(Shows()) && cursorEnabled && old(InLastCell()) ==>
                forall x, y | 0 <= x < geo.pixelsPerScanline && 0 <= y < geo.height ::
                  Pixel(x, y) == ScrolledImage(geo, font, bg, fg, old(grid), grid, x, y)
      ensures old(Shows()) && cursorEnabled && old(InLastCell()) ==>
                (Shows() <==> BlankAtLastLine(geo, font, bg, old(grid))
                              && (fg == bg || GridSize().columns == 1 || GridSize().rows == 1))
      ensures old(Shows()) && fg != bg && GridSize().columns > 1 && GridSize().rows > 1 ==>
                (Shows() <==> !(cursorEnabled && old(InLastCell())))
      ensures cursorEnabled && old(InLastCell()) && GridSize().columns > 1 && GridSize().rows > 1 ==>
                CursorVisible(0, GridSize().rows - 2) && !(hasDrawnCursor && prevY == GridSize().rows - 2)
    {
      hide Shade, ScrolledImage;
      var x, y := cursorX, cursorY;
      var shouldScroll := AdvanceCursor();
      if shouldScroll {
        AdvanceAtEnd(Put(old(Abstract()), Glyph(chr, c)), GridSize());
      }
      PrintAt(chr, c, x, y, shouldScroll);
      if cursorEnabled && shouldScroll {
        ScrolledImageIff(geo, font, bg, fg, old(Abstract()), Glyph(chr, c));
      }
    }

    /** The cursor arithmetic of `WriteChar`. */
    method AdvanceCursor() returns (shouldScroll: bool)
      requires geo.Usable() && InGrid(cursorX, cursorY, GridSize())
      modifies this`cursorX, this`cursorY
      ensures InGrid(cursorX, cursorY, GridSize()) && shouldScroll == old(InLastCell())
      ensures shouldScroll ==> cursorX == 0 && cursorY == old(cursorY)
      ensures !shouldScroll ==>
                if old(cursorX) + 1 < GridSize().columns then cursorX == old(cursorX) + 1 && cursorY == old(cursorY)
                else cursorX == 0 && cursorY == old(cursorY) + 1
    {
      shouldScroll := false;
      cursorX := cursorX + 1;
      if cursorX >= GridSize().columns {
        cursorX := 0;
        cursorY := cursorY + 1;
        if cursorY > GridSize().rows - 1 {
          cursorY := GridSize().rows - 1;
          shouldScroll := true;
        }
      }
    }

    /** The cursor, if drawn, is drawn at the start of the last line, over what was there `before`. */
    ghost predicate AtLastLine(before: seq<Line>)
      requires Ready() && Fits(before, GridSize())
      reads this, fb, saved
    {
      forall i, j | 0 <= i < geo.pixelsPerScanline && 0 <= j < geo.height ::
        && (Covers(0, GridSize().rows - 1, i, j) ==> Pixel(i, j) == Shade(geo, font, bg, before, i, j))
        && (Covers(0, GridSize().rows - 1, i, j) && GridSize().columns > 1 ==> fb[j, i] == fg)
        && (!Covers(0, GridSize().rows - 1, i, j) || GridSize().columns == 1 ==>
              fb[j, i] == Shade(geo, font, bg, grid, i, j))
    }

    /** The cursor goes to its new cell, the character to its own. */
    method DrawPrinted(chr: glyph, c: color, x: nat, y: nat, ghost last: bool)
      requires Ready() && InGrid(x, y, GridSize())
      requires !last ==> !(x == cursorX && y == cursorY)
      requires last ==> x == GridSize().columns - 1 && y == GridSize().rows - 1 == cursorY && cursorX == 0
      modifies fb, saved, this`grid, this`prevX, this`prevY, this`hasDrawnCursor
      ensures Ready() && grid == Put(Screen(old(grid), x, y), Glyph(chr, c)).grid
      ensures old(Shows()) && !(cursorEnabled && last) ==> Shows()
      ensures cursorEnabled ==> prevX == cursorX && prevY == cursorY
      ensures cursorEnabled && last && GridSize().columns > 1 ==> CursorVisible(0, GridSize().rows - 1)
      ensures cursorEnabled && last && old(Shows()) ==> AtLastLine(old(grid))
    {
      hide Shade;
      UpdateCursor();
      label Updated:
      DrawCell(chr, c, x, y);
      if cursorEnabled && last && old(Shows()) {
        forall i, j | 0 <= i < geo.pixelsPerScanline && 0 <= j < geo.height
          ensures Covers(0, GridSize().rows - 1, i, j) ==> Pixel(i, j) == Shade(geo, font, bg, old(grid), i, j)
        {
          assert old@Updated(Pixel(i, j)) == Shade(geo, font, bg, old(grid), i, j);
        }
      }
    }

    /** The end of `PrintAt`: scrolling with the cursor on the screen. */
    method ScrollPrinted(ghost before: seq<Line>, ghost showed: bool)
      requires Ready() && Fits(before, GridSize())
      requires cursorEnabled ==> prevX == 0 && prevY == GridSize().rows - 1
      requires cursorEnabled && GridSize().columns > 1 ==> CursorVisible(0, GridSize().rows - 1)
      requires cursorEnabled && showed ==> AtLastLine(before)
      modifies fb, this`grid
      ensures Ready() && grid == Scrolled(old(grid), GridSize())
      ensures old(Shows()) && !cursorEnabled ==> Shows()
      ensures cursorEnabled && showed ==>
                forall i, j | 0 <= i < geo.pixelsPerScanline && 0 <= j < geo.height ::
                  Pixel(i, j) == ScrolledImage(geo, font, bg, fg, before, grid, i, j)
      ensures cursorEnabled && GridSize().columns > 1 && GridSize().rows > 1 ==> CursorVisible(0, GridSize().rows - 2)
    {
      ScrollGrid();
      if cursorEnabled {
        CellInside(geo, 0, GridSize().rows - 1);
        forall i, j | 0 <= i < geo.pixelsPerScanline && 0 <= j < geo.height
          ensures GridSize().columns > 1 && Covers(0, GridSize().rows - 2, i, j) ==> fb[j, i] == fg
          ensures showed ==> Pixel(i, j) == ScrolledImage(geo, font, bg, fg, before, grid, i, j)
        {
          ShadeOfScroll(geo, font, bg, old(grid), i, j);
          if j < geo.height - 16 {
            assert fb[j, i] == old(fb[j + 16, i]);
            assert Covers(0, GridSize().rows - 1, i, j + 16) <==> Covers(0, GridSize().rows - 2, i, j);
          }
        }
      }
    }

    /** The drawing of `WriteChar`. */
    method PrintAt(chr: glyph, c: color, x: nat, y: nat, shouldScroll: bool)
      requires Ready() && InGrid(x, y, GridSize())
      requires !shouldScroll ==> !(x == cursorX && y == cursorY)
      requires shouldScroll ==> x == GridSize().columns - 1 && y == GridSize().rows - 1 == cursorY && cursorX == 0
      modifies fb, saved, this`grid, this`prevX, this`prevY, this`hasDrawnCursor
      ensures Ready() && (old(Shows()) && !(cursorEnabled && shouldScroll) ==> Shows())
      ensures grid == var g := Put(Screen(old(grid), x, y), Glyph(chr, c)).grid;
                      if shouldScroll then Scrolled(g, GridSize()) else g
      ensures old(Shows()) && cursorEnabled && shouldScroll ==>
                forall i, j | 0 <= i < geo.pixelsPerScanline && 0 <= j < geo.height ::
                  Pixel(i, j) == ScrolledImage(geo, font, bg, fg, old(grid), grid, i, j)
      ensures cursorEnabled && shouldScroll && GridSize().columns > 1 && GridSize().rows > 1 ==>
                CursorVisible(0, GridSize().rows - 2) && hasDrawnCursor && prevY == GridSize().rows - 1
    {
      hide Shade, Scrolled, ScrolledImage, Shows, AtLastLine;
      DrawPrinted(chr, c, x, y, shouldScroll);
      if shouldScroll {
        ScrollPrinted(old(grid), old(Shows()));
      }
    }

    /** One step of the cursor: left and right follow the reading order and stop at its ends, down stops at
        the last line, and up from the first line goes home. */
    method MoveCursor(dir: Direction)
      requires geo.Usable() && InGrid(cursorX, cursorY, GridSize())
      modifies this`cursorX, this`cursorY
      ensures InGrid(cursorX, cursorY, GridSize())
      ensures var width, height, x, y := GridSize().columns, GridSize().rows, old(cursorX), old(cursorY);
              var place := cursorY * width + cursorX;
              match dir
              case Left => place == (if y * width + x > 0 then y * width + x - 1 else 0)
              case Right => place == (if y * width + x < width * height - 1 then y * width + x + 1 else width * height - 1)
              case Down => cursorX == x && cursorY == (if y + 1 < height then y + 1 else y)
              case Up => if y > 0 then cursorX == x && cursorY == y - 1 else cursorX == 0 && cursorY == 0
    {
      var width, height := GridSize().columns, GridSize().rows;
      PlaceBounds(cursorX, cursorY, GridSize());
      match dir
      case Up =>
        if cursorY > 0 {
          cursorY := cursorY - 1;
        } else {
          cursorX, cursorY := 0, 0;
        }
      case Down =>
        if cursorY < height - 1 {
          cursorY := cursorY + 1;
        } else {
          cursorY := height - 1;
        }
      case Left =>
        if cursorX > 0 {
          cursorX := cursorX - 1;
        } else if cursorY > 0 {
          cursorX, cursorY := width - 1, cursorY - 1;
        } else {
          cursorX, cursorY := 0, 0;
        }
        PlaceBounds(cursorX, cursorY, GridSize());
      case Right =>
        if cursorX < width - 1 {
          cursorX := cursorX + 1;
        } else if cursorY < height - 1 {
          cursorX, cursorY := 0, cursorY + 1;
        } else {
          cursorX, cursorY := width - 1, height - 1;
        }
        PlaceBounds(cursorX, cursorY, GridSize());
    }

    method SetCursorPosition(x: int, y: int)
      modifies this`cursorX, this`cursorY
      ensures cursorX == x && cursorY == y
    {
      cursorX, cursorY := x, y;
    }

    /** `WriteChar(chr, color)`. */
    method WriteChar(chr: glyph, c: color)
      requires Ready()
      modifies fb, saved, this`grid, this`cursorX, this`cursorY, this`prevX, this`prevY, this`hasDrawnCursor, this`cursorEnabled
      ensures Ready() && cursorEnabled == old(cursorEnabled)
      ensures Abstract() == Step(old(Abstract()), chr, c, GridSize())
      ensures old(Shows()) && (cursorEnabled ==> StaysAbove(old(Abstract()), chr, c, GridSize())) ==> Shows()
      ensures old(Shows()) && IsPrinted(chr) && fg != bg && GridSize().columns > 1 && GridSize().rows > 1 ==>
                (Shows() <==> (cursorEnabled ==> StaysAbove(old(Abstract()), chr, c, GridSize())))
    {
      if chr == LINE_FEED {
        NewLine();
      } else if chr == BACKSPACE {
        BackOnce(Abstract(), fg, GridSize());
        Backspace(1, false);
      } else if chr == NUL {
        return;
      } else if chr == TAB {
        WriteSpaces(c);
      } else {
        PrintChar(chr, c);
      }
    }

    /** `Write("    ", color)`, for a tab. */
    method WriteSpaces(c: color)
      requires Ready()
      modifies fb, saved, this`grid, this`cursorX, this`cursorY, this`prevX, this`prevY, this`hasDrawnCursor
      ensures Ready() && Abstract() == PrintTimes(old(Abstract()), Glyph(SPACE, c), 4, GridSize())
      ensures old(Shows()) && (cursorEnabled ==> StaysAbove(old(Abstract()), TAB, c, GridSize())) ==> Shows()
    {
      var index: nat := 0;
      while index < 4
        invariant index <= 4 && Ready() && cursorEnabled == old(cursorEnabled)
        invariant Abstract() == PrintTimes(old(Abstract()), Glyph(SPACE, c), index, GridSize())
        invariant old(Shows()) && (cursorEnabled ==> StaysAbove(old(Abstract()), TAB, c, GridSize())) ==> Shows()
      {
        PrintChar(SPACE, c);
        index := index + 1;
      }
    }

    /** `Write(str, color)`: the characters one by one. */
    method Write(text: seq<Written>)
      requires Ready()
      modifies fb, saved, this`grid, this`cursorX, this`cursorY, this`prevX, this`prevY, this`hasDrawnCursor, this`cursorEnabled
      ensures Ready() && cursorEnabled == old(cursorEnabled)
      ensures Abstract() == Run(old(Abstract()), text, GridSize())
      ensures old(Shows()) && (cursorEnabled ==> RunStaysAbove(old(Abstract()), text, GridSize())) ==> Shows()
    {
      var index: nat := 0;
      while index < |text|
        invariant index <= |text| && Ready() && cursorEnabled == old(cursorEnabled)
        invariant Abstract() == Run(old(Abstract()), text[..index], GridSize())
        invariant old(Shows()) && (cursorEnabled ==> RunStaysAbove(old(Abstract()), text, GridSize())) ==> Shows()
      {
        assert text[..index + 1][..index] == text[..index];
        if cursorEnabled && RunStaysAbove(old(Abstract()), text, GridSize()) {
          StaysAboveSoFar(old(Abstract()), text, index + 1, GridSize());
        }
        WriteChar(text[index].chr, text[index].fg);
        index := index + 1;
      }
      assert text[..index] == text;
    }

    /** A text on a cleared screen without cursor: the framebuffer is the picture of the grid that the
        terminal comes to, which shows the last lines of all that was written. */
    method ShowText(text: seq<Written>)
      requires Sized() && !cursorEnabled && !hasDrawnCursor
      modifies fb, saved, this`grid, this`cursorX, this`cursorY, this`prevX, this`prevY, this`hasDrawnCursor, this`cursorEnabled
      ensures forall x, y | 0 <= x < geo.pixelsPerScanline && 0 <= y < geo.height ::
                fb[y, x] == Shade(geo, font, bg, Run(Cleared(GridSize()), text, GridSize()).grid, x, y)
      ensures Abstract() == Run(Cleared(GridSize()), text, GridSize())
      ensures Abstract() == Window(PaperRun(FreshPaper(GridSize()), text, GridSize()), GridSize())
    {
      Clear(bg);
      Write(text);
      ScreenShowsPaper(text, GridSize());
      assert forall x, y | 0 <= x < geo.pixelsPerScanline && 0 <= y < geo.height :: Pixel(x, y) == fb[y, x];
    }

    /** A plain text of any length on a cleared screen, pixel by pixel, from the bytes of the font: the
        last lines of it, each as many characters as fit. */
    method ShowPlainText(text: seq<Written>)
      requires Sized() && !cursorEnabled && !hasDrawnCursor
      requires forall k | 0 <= k < |text| :: text[k].chr != 10 && text[k].chr != 9 && text[k].chr != 8 && text[k].chr != 0
      modifies fb, saved, this`grid, this`cursorX, this`cursorY, this`prevX, this`prevY, this`hasDrawnCursor, this`cursorEnabled
      ensures forall x, y | 0 <= x < geo.pixelsPerScanline && 0 <= y < geo.height ::
                fb[y, x] == TextPixel(font.buffer, geo.charsize, geo.pixelsPerScanline, geo.height, text, bg, x, y)
    {
      hide Shade, Window, PaperRun, Run, TextPixel;
      ShowText(text);
      forall x, y | 0 <= x < geo.pixelsPerScanline && 0 <= y < geo.height
        ensures fb[y, x] == TextPixel(font.buffer, geo.charsize, geo.pixelsPerScanline, geo.height, text, bg, x, y)
      {
        PlainPixel(geo, font, bg, text, x, y);
      }
    }

    /** Whatever is on the screen: showing the cursor, moving it about and hiding it again changes
        nothing, and the cursor stays in the grid. */
    method ShowCursor(moves: seq<CursorMove>)
      requires CursorValid() && !cursorEnabled && !hasDrawnCursor && geo.charsize == 16
      requires forall k | 0 <= k < |moves| && moves[k].Jump? :: InGrid(moves[k].x, moves[k].y, GridSize())
      modifies fb, saved, this`cursorX, this`cursorY, this`prevX, this`prevY, this`hasDrawnCursor, this`cursorEnabled
      ensures forall x, y | 0 <= x < geo.pixelsPerScanline && 0 <= y < geo.height :: fb[y, x] == old(fb[y, x])
      ensures InGrid(cursorX, cursorY, GridSize()) && !cursorEnabled && !hasDrawnCursor
    {
      EnableCursor();
      var k: nat := 0;
      while k < |moves|
        invariant k <= |moves| && CursorValid() && cursorEnabled && hasDrawnCursor
        invariant forall x, y | 0 <= x < geo.pixelsPerScanline && 0 <= y < geo.height ::
                    Pixel(x, y) == old(Pixel(x, y))
      {
        match moves[k] {
          case Move(dir) => MoveCursor(dir);
          case Jump(x, y) => SetCursorPosition(x, y);
          case Refresh => UpdateCursor();
        }
        k := k + 1;
      }
      DisableCursor();
    }
  }

  /** A cleared screen of two lines of two cells, with the cursor shown in the last cell. */
  method CursorInLastCell(font: Font) returns (t: PrimitiveConsole)
    requires font.Usable() && font.charsize == 16
    ensures fresh(t) && fresh(t.fb) && fresh(t.saved)
    ensures t.Valid() && t.cursorEnabled && t.fg != t.bg && t.GridSize() == Size(2, 2)
    ensures t.grid == BlankGrid(t.GridSize()) && t.cursorX == 1 && t.cursorY == 1
  {
    var geo := Geometry(16, 16, 32);
    assert geo.CharWidth() == 8 && Quotient(16, 8) == 2 && Quotient(32, 16) == 2;
    var screen := new color[32, 16];
    var buffer := new color[128];
    t := new PrimitiveConsole(screen, geo, font, BLACK, buffer);
    t.Clear(BLACK);
    t.SetCursorPosition(1, 1);
    t.EnableCursor();
  }

  /** Whatever is printed there leaves the cursor's pixels lit in the first cell, which is blank. */
  method LeaveCursorBehind(font: Font, chr: glyph) returns (t: PrimitiveConsole)
    requires font.Usable() && font.charsize == 16
    ensures fresh(t) && t.Ready() && !t.Shows() && t.fg != t.bg
    ensures t.GridSize() == Size(2, 2) && t.grid[0][0] == Blank && t.CursorVisible(0, 0) && t.prevY != 0
  {
    t := CursorInLastCell(font);
    AdvanceAtEnd(Put(t.Abstract(), Glyph(chr, t.fg)), t.GridSize());
    t.PrintChar(chr, t.fg);
  }
}
