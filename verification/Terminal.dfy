/** The abstract terminal behind the console of `PrimitiveConsole.cpp`: a grid of cells and a
    cursor; and the unbounded sheet of paper whose last lines the grid shows. */
module Terminal {

  /** A Color32. */
  type color = c: int | 0 <= c < 0x1_0000_0000

  /** A character code a glyph exists for. */
  type glyph = c: int | 0 <= c < 128

  datatype Cell = Blank | Glyph(chr: glyph, fg: color)

  type Line = seq<Cell>

  /** Columns and rows. */
  datatype Size = Size(columns: nat, rows: nat) {
    predicate Usable() {
      columns > 0 && rows > 0
    }
  }

  datatype Screen = Screen(grid: seq<Line>, x: int, y: int)

  predicate Fits(grid: seq<Line>, size: Size) {
    |grid| == size.rows && forall r | 0 <= r < |grid| :: |grid[r]| == size.columns
  }

  /** Grid and cursor agree with the size. */
  predicate Good(s: Screen, size: Size) {
    Fits(s.grid, size) && 0 <= s.x < size.columns && 0 <= s.y < size.rows
  }

  function BlankLine(size: Size): (line: Line)
    ensures |line| == size.columns
  {
    seq(size.columns, _ => Blank)
  }

  function BlankGrid(size: Size): (grid: seq<Line>)
    ensures Fits(grid, size)
  {
    seq(size.rows, _ => BlankLine(size))
  }

  /** The top line is dropped and a blank one appears at the bottom. */
  function Scrolled(grid: seq<Line>, size: Size): (r: seq<Line>)
    requires size.Usable() && Fits(grid, size)
    ensures Fits(r, size)
  {
    grid[1..] + [BlankLine(size)]
  }

  function ScrolledBy(grid: seq<Line>, n: nat, size: Size): (r: seq<Line>)
    requires size.Usable() && Fits(grid, size)
    ensures Fits(r, size)
  {
    if n == 0 then grid else Scrolled(ScrolledBy(grid, n - 1, size), size)
  }

  const LINE_FEED: glyph := 10
  const BACKSPACE: glyph := 8
  const TAB: glyph := 9
  const NUL: glyph := 0
  const SPACE: glyph := 32

  predicate IsPrinted(chr: glyph) {
    chr != LINE_FEED && chr != BACKSPACE && chr != TAB && chr != NUL
  }

  function Put(s: Screen, cell: Cell): Screen
    requires 0 <= s.y < |s.grid| && 0 <= s.x < |s.grid[s.y]|
  {
    s.(grid := s.grid[s.y := s.grid[s.y][s.x := cell]])
  }

  /** To the start of a line further down, scrolling as far as needed. */
  function NewLines(s: Screen, n: nat, size: Size): (r: Screen)
    requires size.Usable() && Good(s, size)
    ensures Good(r, size)
  {
    if s.y + n < size.rows then Screen(s.grid, 0, s.y + n)
    else Screen(ScrolledBy(s.grid, s.y + n - (size.rows - 1), size), 0, size.rows - 1)
  }

  /** How far a line lies below the last one. */
  function Excess(y: int, size: Size): nat
    requires size.Usable()
  {
    if y > size.rows - 1 then y - (size.rows - 1) else 0
  }

  lemma NewLinesByExcess(s: Screen, n: nat, size: Size)
    requires size.Usable() && Good(s, size)
    ensures var e := Excess(s.y + n, size);
            NewLines(s, n, size) == Screen(ScrolledBy(s.grid, e, size), 0, s.y + n - e)
  {
    assert ScrolledBy(s.grid, 0, size) == s.grid;
  }

  /** One cell on, to the next line after the last one. */
  function Advance(s: Screen, size: Size): (r: Screen)
    requires size.Usable() && Good(s, size)
    ensures Good(r, size)
  {
    if s.x + 1 < size.columns then s.(x := s.x + 1) else NewLines(s, 1, size)
  }

  /** Past the last cell the screen scrolls by one line. */
  lemma AdvanceAtEnd(s: Screen, size: Size)
    requires size.Usable() && Good(s, size) && s.x + 1 >= size.columns && s.y + 1 >= size.rows
    ensures Advance(s, size) == Screen(Scrolled(s.grid, size), 0, size.rows - 1)
  {
    assert ScrolledBy(s.grid, 0, size) == s.grid;
  }

  /** One cell back, staying at the first one. */
  function Back(s: Screen, size: Size): (r: Screen)
    requires size.Usable() && Good(s, size)
    ensures Good(r, size)
  {
    if s.x > 0 then s.(x := s.x - 1)
    else if s.y > 0 then s.(x := size.columns - 1, y := s.y - 1)
    else s
  }

  /** Back n cells; erasing puts a space on each. */
  function BackTimes(s: Screen, n: nat, erase: bool, fg: color, size: Size): (r: Screen)
    requires size.Usable() && Good(s, size)
    ensures Good(r, size)
  {
    if n == 0 then s
    else
      var b := Back(BackTimes(s, n - 1, erase, fg, size), size);
      if erase then Put(b, Glyph(SPACE, fg)) else b
  }

  lemma BackOnce(s: Screen, fg: color, size: Size)
    requires size.Usable() && Good(s, size)
    ensures BackTimes(s, 1, false, fg, size) == Back(s, size)
  {
    assert BackTimes(s, 0, false, fg, size) == s;
  }

  // ---------------------------------------------------------------------------
  // Reading order
  // ---------------------------------------------------------------------------

  predicate InGrid(x: int, y: int, size: Size) {
    0 <= x < size.columns && 0 <= y < size.rows
  }

  /** A cell's place in reading order. */
  function Place(x: int, y: int, size: Size): int {
    y * size.columns + x
  }

  lemma PlaceBounds(x: int, y: int, size: Size)
    requires InGrid(x, y, size)
    ensures 0 <= Place(x, y, size) < size.rows * size.columns
    ensures x == 0 && y == 0 <==> Place(x, y, size) == 0
    ensures x == size.columns - 1 && y == size.rows - 1 <==> Place(x, y, size) == size.rows * size.columns - 1
    ensures Place(x, y, size) == Place(0, y, size) + x && Place(0, y + 1, size) == Place(0, y, size) + size.columns
  {
    LineStarts(y, size.rows, size.columns);
    if y < size.rows - 1 {
      LineStarts(y, size.rows - 1, size.columns);
    }
    if y > 0 {
      LineStarts(0, y, size.columns);
    }
    assert (size.rows - 1) * size.columns + size.columns == size.rows * size.columns;
    assert (y + 1) * size.columns == y * size.columns + size.columns;
  }

  /** Going back is one place less in reading order, stopping at the first. */
  lemma BackIsOnePlaceLess(s: Screen, size: Size)
    requires size.Usable() && Good(s, size)
    ensures var b, place := Back(s, size), Place(s.x, s.y, size);
            b.grid == s.grid && Place(b.x, b.y, size) == if place > 0 then place - 1 else 0
  {
    PlaceBounds(s.x, s.y, size);
    if s.x == 0 && s.y > 0 {
      PlaceBounds(0, s.y - 1, size);
    }
  }

  /** n places less, stopping at the first. */
  function Less(place: int, n: nat): int {
    if place > n then place - n else 0
  }

  lemma {:induction false} BackTimesPlace(s: Screen, n: nat, erase: bool, fg: color, size: Size)
    requires size.Usable() && Good(s, size)
    ensures var b := BackTimes(s, n, erase, fg, size);
            Place(b.x, b.y, size) == Less(Place(s.x, s.y, size), n)
  {
    PlaceBounds(s.x, s.y, size);
    if n > 0 {
      BackTimesPlace(s, n - 1, erase, fg, size);
      BackIsOnePlaceLess(BackTimes(s, n - 1, erase, fg, size), size);
    }
  }

  /** None of the n erased cells is (c, r). */
  predicate ErasesElsewhere(s: Screen, n: nat, fg: color, c: int, r: int, size: Size)
    requires size.Usable() && Good(s, size)
  {
    forall k: nat | 1 <= k <= n :: !IsAt(BackTimes(s, k, true, fg, size), c, r)
  }

  predicate IsAt(s: Screen, c: int, r: int) {
    s.x == c && s.y == r
  }

  /** A cursor erases its own cell exactly at home, where it cannot go back. */
  lemma ErasesElsewhereIff(s: Screen, n: nat, fg: color, size: Size)
    requires size.Usable() && Good(s, size)
    ensures ErasesElsewhere(s, n, fg, s.x, s.y, size) <==> n == 0 || Place(s.x, s.y, size) > 0
  {
    PlaceBounds(s.x, s.y, size);
    if n > 0 && Place(s.x, s.y, size) == 0 {
      BackTimesPlace(s, 1, true, fg, size);
      var b := BackTimes(s, 1, true, fg, size);
      PlaceBounds(b.x, b.y, size);
      assert IsAt(b, s.x, s.y);
    }
    forall k: nat | 1 <= k <= n && Place(s.x, s.y, size) > 0
      ensures !IsAt(BackTimes(s, k, true, fg, size), s.x, s.y)
    {
      BackTimesPlace(s, k, true, fg, size);
    }
  }

  lemma PutTwice(s: Screen, cell: Cell)
    requires 0 <= s.y < |s.grid| && 0 <= s.x < |s.grid[s.y]|
    ensures Put(Put(s, cell), cell) == Put(s, cell)
  {
    var line := s.grid[s.y][s.x := cell];
    assert line[s.x := cell] == line;
    assert s.grid[s.y := line][s.y := line] == s.grid[s.y := line];
  }

  /** Erasing at home, however often, leaves a space there. */
  lemma {:induction false} EraseHome(s: Screen, n: nat, fg: color, size: Size)
    requires size.Usable() && Good(s, size) && s.x == 0 && s.y == 0 && n > 0
    ensures BackTimes(s, n, true, fg, size) == Put(s, Glyph(SPACE, fg))
  {
    if n > 1 {
      EraseHome(s, n - 1, fg, size);
      PutTwice(s, Glyph(SPACE, fg));
    } else {
      assert BackTimes(s, 0, true, fg, size) == s;
    }
  }

  datatype Direction = Up | Down | Left | Right

  /** What can be done with the cursor while it is shown. */
  datatype CursorMove = Move(dir: Direction) | Jump(x: int, y: int) | Refresh

  /** Print a cell at the cursor. */
  function Print(s: Screen, cell: Cell, size: Size): (r: Screen)
    requires size.Usable() && Good(s, size)
    ensures Good(r, size)
  {
    Advance(Put(s, cell), size)
  }

  function PrintTimes(s: Screen, cell: Cell, n: nat, size: Size): (r: Screen)
    requires size.Usable() && Good(s, size)
    ensures Good(r, size)
  {
    if n == 0 then s else Print(PrintTimes(s, cell, n - 1, size), cell, size)
  }

  /** One character. */
  function Step(s: Screen, chr: glyph, fg: color, size: Size): (r: Screen)
    requires size.Usable() && Good(s, size)
    ensures Good(r, size)
  {
    if chr == LINE_FEED then NewLines(s, 1, size)
    else if chr == BACKSPACE then Back(s, size)
    else if chr == NUL then s
    else if chr == TAB then PrintTimes(s, Glyph(SPACE, fg), 4, size)
    else Print(s, Glyph(chr, fg), size)
  }

  /** Line feeds: n lines further down, or as far as the last line, with whatever is missing scrolled away. */
  lemma NewLinesIs(s: Screen, n: nat, size: Size, r: nat)
    requires size.Usable() && Good(s, size) && r < size.rows
    ensures var t := NewLines(s, n, size);
            var excess := if s.y + n < size.rows then 0 else s.y + n - size.rows + 1;
            && t.x == 0 && t.y + excess == s.y + n && |t.grid| == size.rows
            && (r + excess < size.rows ==> t.grid[r] == s.grid[r + excess])
            && (r + excess >= size.rows ==> t.grid[r] == seq(size.columns, _ => Blank))
  {
    ScrolledAway(s.grid, if s.y + n < size.rows then 0 else s.y + n - size.rows + 1, size);
    assert BlankLine(size) == seq(size.columns, _ => Blank);
  }

  /** The control characters by their codes: 10 begins a line, 8 goes back, 0 is nothing, 9 is four spaces;
      any other is put in the cursor's cell and the cursor goes on. */
  lemma StepIs(s: Screen, chr: glyph, fg: color, size: Size)
    requires size.Usable() && Good(s, size)
    ensures Step(s, 0, fg, size) == s
    ensures Step(s, 10, fg, size) == NewLines(s, 1, size)
    ensures Step(s, 8, fg, size) == if s.x > 0 then Screen(s.grid, s.x - 1, s.y)
                                    else if s.y > 0 then Screen(s.grid, size.columns - 1, s.y - 1) else s
    ensures Step(s, 9, fg, size)
            == Step(Step(Step(Step(s, 32, fg, size), 32, fg, size), 32, fg, size), 32, fg, size)
    ensures chr !in {0, 8, 9, 10} ==>
              var put := Screen(s.grid[s.y := s.grid[s.y][s.x := Glyph(chr, fg)]], s.x, s.y);
              Step(s, chr, fg, size) == if s.x + 1 < size.columns then Screen(put.grid, s.x + 1, s.y) else NewLines(put, 1, size)
  {
    hide NewLines;
    var cell := Glyph(32, fg);
    assert PrintTimes(s, cell, 0, size) == s;
    var two := PrintTimes(s, cell, 2, size);
    assert two == Print(PrintTimes(s, cell, 1, size), cell, size);
    assert PrintTimes(s, cell, 4, size) == Print(PrintTimes(s, cell, 3, size), cell, size);
    hide Put, Advance, Good;
  }

  /** The cell after which the screen has to scroll. */
  predicate AtEnd(s: Screen, size: Size) {
    s.x == size.columns - 1 && s.y == size.rows - 1
  }

  /** Nothing is printed in the last cell. */
  predicate StaysAbove(s: Screen, chr: glyph, fg: color, size: Size)
    requires size.Usable() && Good(s, size)
  {
    && (IsPrinted(chr) ==> !AtEnd(s, size))
    && (chr == TAB ==> forall k | 0 <= k < 4 :: !AtEnd(PrintTimes(s, Glyph(SPACE, fg), k, size), size))
  }

  datatype Written = Written(chr: glyph, fg: color)

  function Run(s: Screen, text: seq<Written>, size: Size): (r: Screen)
    requires size.Usable() && Good(s, size)
    ensures Good(r, size)
  {
    if text == [] then s
    else
      var last := |text| - 1;
      Step(Run(s, text[..last], size), text[last].chr, text[last].fg, size)
  }

  /** No character of the text is printed in the last cell. */
  predicate RunStaysAbove(s: Screen, text: seq<Written>, size: Size)
    requires size.Usable() && Good(s, size)
  {
    text == []
    || var last := |text| - 1;
       && RunStaysAbove(s, text[..last], size)
       && StaysAbove(Run(s, text[..last], size), text[last].chr, text[last].fg, size)
  }

  lemma {:induction false} StaysAboveSoFar(s: Screen, text: seq<Written>, k: nat, size: Size)
    requires size.Usable() && Good(s, size) && RunStaysAbove(s, text, size) && k <= |text|
    ensures RunStaysAbove(s, text[..k], size)
    decreases |text|
  {
    if k < |text| {
      var last := |text| - 1;
      assert text[..last][..k] == text[..k];
      StaysAboveSoFar(s, text[..last], k, size);
    } else {
      assert text[..k] == text;
    }
  }

  function Cleared(size: Size): (r: Screen)
    requires size.Usable()
    ensures Good(r, size)
  {
    Screen(BlankGrid(size), 0, 0)
  }

  /** Scrolling a whole screen away leaves nothing. */
  lemma {:induction false} ScrolledAway(grid: seq<Line>, n: nat, size: Size)
    requires size.Usable() && Fits(grid, size)
    ensures forall r | 0 <= r < size.rows - n :: ScrolledBy(grid, n, size)[r] == grid[r + n]
    ensures forall r | 0 <= r < size.rows && r >= size.rows - n :: ScrolledBy(grid, n, size)[r] == BlankLine(size)
    ensures n >= size.rows ==> ScrolledBy(grid, n, size) == BlankGrid(size)
  {
    if n > 0 {
      ScrolledAway(grid, n - 1, size);
    }
  }

  // ---------------------------------------------------------------------------
  // The paper
  // ---------------------------------------------------------------------------

  /** All lines ever begun; the screen shows the last ones. */
  datatype Paper = Paper(lines: seq<Line>, x: int, line: int)

  function Top(p: Paper, size: Size): int {
    |p.lines| - size.rows
  }

  predicate GoodPaper(p: Paper, size: Size) {
    && (forall r | 0 <= r < |p.lines| :: |p.lines[r]| == size.columns)
    && 0 <= Top(p, size) <= p.line < |p.lines| && 0 <= p.x < size.columns
  }

  function Window(p: Paper, size: Size): (s: Screen)
    requires GoodPaper(p, size)
    ensures Good(s, size)
  {
    Screen(p.lines[Top(p, size)..], p.x, p.line - Top(p, size))
  }

  function FreshPaper(size: Size): (p: Paper)
    requires size.Usable()
    ensures GoodPaper(p, size)
  {
    Paper(BlankGrid(size), 0, 0)
  }

  /** A new line is appended only when the cursor is on the last one. */
  function PaperLine(p: Paper, size: Size): (r: Paper)
    requires size.Usable() && GoodPaper(p, size)
    ensures GoodPaper(r, size)
  {
    Paper(if p.line + 1 < |p.lines| then p.lines else p.lines + [BlankLine(size)], 0, p.line + 1)
  }

  function PaperPrint(p: Paper, cell: Cell, size: Size): (r: Paper)
    requires size.Usable() && GoodPaper(p, size)
    ensures GoodPaper(r, size)
  {
    var q := p.(lines := p.lines[p.line := p.lines[p.line][p.x := cell]]);
    if p.x + 1 < size.columns then q.(x := p.x + 1) else PaperLine(q, size)
  }

  /** The cursor cannot go back to a line that has left the screen. */
  function PaperBack(p: Paper, size: Size): (r: Paper)
    requires size.Usable() && GoodPaper(p, size)
    ensures GoodPaper(r, size)
  {
    if p.x > 0 then p.(x := p.x - 1)
    else if p.line > Top(p, size) then p.(x := size.columns - 1, line := p.line - 1)
    else p
  }

  function PaperTimes(p: Paper, cell: Cell, n: nat, size: Size): (r: Paper)
    requires size.Usable() && GoodPaper(p, size)
    ensures GoodPaper(r, size)
  {
    if n == 0 then p else PaperPrint(PaperTimes(p, cell, n - 1, size), cell, size)
  }

  function PaperStep(p: Paper, chr: glyph, fg: color, size: Size): (r: Paper)
    requires size.Usable() && GoodPaper(p, size)
    ensures GoodPaper(r, size)
  {
    if chr == LINE_FEED then PaperLine(p, size)
    else if chr == BACKSPACE then PaperBack(p, size)
    else if chr == NUL then p
    else if chr == TAB then PaperTimes(p, Glyph(SPACE, fg), 4, size)
    else PaperPrint(p, Glyph(chr, fg), size)
  }

  function PaperRun(p: Paper, text: seq<Written>, size: Size): (r: Paper)
    requires size.Usable() && GoodPaper(p, size)
    ensures GoodPaper(r, size)
  {
    if text == [] then p
    else
      var last := |text| - 1;
      PaperStep(PaperRun(p, text[..last], size), text[last].chr, text[last].fg, size)
  }

  lemma WindowOfLine(p: Paper, size: Size)
    requires size.Usable() && GoodPaper(p, size)
    ensures Window(PaperLine(p, size), size) == NewLines(Window(p, size), 1, size)
  {
    var s := Window(p, size);
    if s.y + 1 >= size.rows {
      assert ScrolledBy(s.grid, 1, size) == Scrolled(ScrolledBy(s.grid, 0, size), size);
      var top := Top(p, size);
      assert (p.lines + [BlankLine(size)])[top + 1..] == p.lines[top..][1..] + [BlankLine(size)];
    }
  }

  lemma WindowOfPrint(p: Paper, cell: Cell, size: Size)
    requires size.Usable() && GoodPaper(p, size)
    ensures Window(PaperPrint(p, cell, size), size) == Print(Window(p, size), cell, size)
  {
    var q := p.(lines := p.lines[p.line := p.lines[p.line][p.x := cell]]);
    var top := Top(p, size);
    assert q.lines[top..] == p.lines[top..][p.line - top := p.lines[p.line][p.x := cell]];
    assert Window(q, size) == Put(Window(p, size), cell);
    if p.x + 1 >= size.columns {
      WindowOfLine(q, size);
    }
  }

  lemma {:induction false} WindowOfTimes(p: Paper, cell: Cell, n: nat, size: Size)
    requires size.Usable() && GoodPaper(p, size)
    ensures Window(PaperTimes(p, cell, n, size), size) == PrintTimes(Window(p, size), cell, n, size)
  {
    if n > 0 {
      var q := PaperTimes(p, cell, n - 1, size);
      assert Window(q, size) == PrintTimes(Window(p, size), cell, n - 1, size) by {
        WindowOfTimes(p, cell, n - 1, size);
      }
      assert Window(PaperPrint(q, cell, size), size) == Print(Window(q, size), cell, size) by {
        WindowOfPrint(q, cell, size);
      }
    }
  }

  lemma WindowOfStep(p: Paper, chr: glyph, fg: color, size: Size)
    requires size.Usable() && GoodPaper(p, size)
    ensures Window(PaperStep(p, chr, fg, size), size) == Step(Window(p, size), chr, fg, size)
  {
    if chr == LINE_FEED {
      WindowOfLine(p, size);
    } else if chr == TAB {
      WindowOfTimes(p, Glyph(SPACE, fg), 4, size);
    } else if IsPrinted(chr) {
      WindowOfPrint(p, Glyph(chr, fg), size);
    }
  }

  /** The screen always shows the last lines of the paper. */
  lemma {:induction false} ScreenShowsPaper(text: seq<Written>, size: Size)
    requires size.Usable()
    ensures Window(PaperRun(FreshPaper(size), text, size), size) == Run(Cleared(size), text, size)
  {
    if text == [] {
      assert BlankGrid(size)[0..] == BlankGrid(size);
    } else {
      var last := |text| - 1;
      ScreenShowsPaper(text[..last], size);
      WindowOfStep(PaperRun(FreshPaper(size), text[..last], size), text[last].chr, text[last].fg, size);
    }
  }

  /** q comes after p and leaves the lines above p's screen as they are. */
  predicate Later(p: Paper, q: Paper, size: Size) {
    |p.lines| <= |q.lines| && 0 <= Top(p, size) && p.lines[..Top(p, size)] == q.lines[..Top(p, size)]
  }

  lemma {:induction false} TimesKeepsHistory(p: Paper, cell: Cell, n: nat, size: Size)
    requires size.Usable() && GoodPaper(p, size)
    ensures Later(p, PaperTimes(p, cell, n, size), size)
  {
    if n > 0 {
      TimesKeepsHistory(p, cell, n - 1, size);
      PrintKeepsHistory(p, PaperTimes(p, cell, n - 1, size), cell, size);
    }
  }

  lemma PrintKeepsHistory(p: Paper, q: Paper, cell: Cell, size: Size)
    requires size.Usable() && GoodPaper(p, size) && GoodPaper(q, size) && Later(p, q, size)
    ensures Later(p, PaperPrint(q, cell, size), size)
  {}

  lemma LaterTransitive(p: Paper, q: Paper, r: Paper, size: Size)
    requires Later(p, q, size) && Later(q, r, size)
    ensures Later(p, r, size)
  {
    var top := Top(p, size);
    assert q.lines[..Top(q, size)][..top] == r.lines[..Top(q, size)][..top];
  }

  /** Nothing that is written can change a line once it has scrolled off. */
  lemma {:induction false} HistoryIsFinal(p: Paper, text: seq<Written>, size: Size)
    requires size.Usable() && GoodPaper(p, size)
    ensures Later(p, PaperRun(p, text, size), size)
  {
    if text != [] {
      var last := |text| - 1;
      var q := PaperRun(p, text[..last], size);
      HistoryIsFinal(p, text[..last], size);
      if text[last].chr == TAB {
        TimesKeepsHistory(q, Glyph(SPACE, text[last].fg), 4, size);
      } else {
        PrintKeepsHistory(q, q, Glyph(text[last].chr, text[last].fg), size);
      }
      LaterTransitive(p, q, PaperRun(p, text, size), size);
    }
  }

  // ---------------------------------------------------------------------------
  // Plain text
  // ---------------------------------------------------------------------------

  predicate IsPlain(text: seq<Written>) {
    forall i | 0 <= i < |text| :: IsPrinted(text[i].chr)
  }

  /** The paper with plain text filled in line by line. */
  predicate Holds(p: Paper, text: seq<Written>, size: Size)
    requires size.Usable() && GoodPaper(p, size)
  {
    && p.line * size.columns + p.x == |text|
    && |p.lines| == (if p.line < size.rows then size.rows else p.line + 1)
    && forall r, c | 0 <= r < |p.lines| && 0 <= c < size.columns ::
         p.lines[r][c] == CellAt(text, r * size.columns + c)
  }

  function CellAt(text: seq<Written>, i: int): Cell {
    if 0 <= i < |text| then Glyph(text[i].chr, text[i].fg) else Blank
  }

  lemma {:induction false} LineStarts(r: int, r2: int, columns: nat)
    requires r < r2
    ensures r * columns + columns <= r2 * columns
    decreases r2 - r
  {
    assert (r2 - 1) * columns + columns == r2 * columns;
    if r + 1 < r2 {
      LineStarts(r, r2 - 1, columns);
    }
  }

  lemma Positions(r: int, c: int, r2: int, c2: int, columns: nat)
    requires 0 <= c < columns && 0 <= c2 < columns
    ensures r * columns + c == r2 * columns + c2 <==> r == r2 && c == c2
    ensures r < r2 ==> r * columns + c < r2 * columns + c2
    ensures r2 == r + 1 ==> r2 * columns == r * columns + columns
  {
    if r < r2 {
      LineStarts(r, r2, columns);
    } else if r2 < r {
      LineStarts(r2, r, columns);
    }
    assert (r + 1) * columns == r * columns + columns;
  }

  lemma PlainStep(p: Paper, text: seq<Written>, w: Written, size: Size)
    requires size.Usable() && GoodPaper(p, size) && Holds(p, text, size) && IsPrinted(w.chr)
    ensures Holds(PaperPrint(p, Glyph(w.chr, w.fg), size), text + [w], size)
  {
    var q := PaperPrint(p, Glyph(w.chr, w.fg), size);
    Positions(p.line, 0, p.line + 1, 0, size.columns);
    forall r, c | 0 <= r < |q.lines| && 0 <= c < size.columns
      ensures q.lines[r][c] == CellAt(text + [w], r * size.columns + c)
    {
      Positions(r, c, p.line, p.x, size.columns);
      if r < |p.lines| {
        assert p.lines[r][c] == CellAt(text, r * size.columns + c);
      } else {
        Positions(p.line, p.x, r, c, size.columns);
      }
    }
  }

  /** Plain text from a cleared screen: character i stands on line i / columns, column i % columns,
      and everything else is blank. */
  lemma {:induction false} PlainTextLayout(text: seq<Written>, size: Size)
    requires size.Usable() && IsPlain(text)
    ensures Holds(PaperRun(FreshPaper(size), text, size), text, size)
  {
    if text == [] {
      assert forall i :: CellAt(text, i) == Blank;
    } else {
      var last := |text| - 1;
      PlainTextLayout(text[..last], size);
      PlainStep(PaperRun(FreshPaper(size), text[..last], size), text[..last], text[last], size);
      assert text[..last] + [text[last]] == text;
    }
  }
}
