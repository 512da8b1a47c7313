/** protected_mode.cpp: the 80 by 25 text screen, as a window on everything printed since it was cleared. */
module TextScreen {
  import opened Words
  import N = NumberText

  const WIDTH: int := 80
  const HEIGHT: int := 25
  const BLANK: Cell := 0x120  // ' ' | 1 << 8
  const GRAY: Color := 7

  type Cell = x: int | 0 <= x < 0x1_0000
  type Color = x: int | 0 <= x < 16
  type Byte = x: int | 0 <= x < 256

  /** c | color << 8 in a 16-bit cell. A char is signed, so above 127 its sign fills the upper byte. */
  function CellOf(c: Byte, color: Color): Cell {
    if c < 128 then c + 256 * color else 0xff00 + c
  }

  /** What the display reads from a cell: the character from the lower byte, the colour from the upper one. */
  lemma CellReads(c: Byte, color: Color)
    ensures CellOf(c, color) % 256 == c
    ensures CellOf(c, color) / 256 == if c < 128 then color else 0xff
    ensures BLANK % 256 == ' ' as int && BLANK / 256 == 1
  {
  }

  predicate IsNewline(c: Byte) {
    c == 10 || c == 13
  }

  // ----- what the code does -----

  datatype Screen = Screen(cells: seq<Cell>, line: int, col: int, color: Color)

  function Blanks(n: nat): (r: seq<Cell>)
    ensures |r| == n && forall k :: 0 <= k < n ==> r[k] == BLANK
  {
    seq(n, _ => BLANK)
  }

  function Scrolled(cells: seq<Cell>): seq<Cell>
    requires |cells| == WIDTH * HEIGHT
  {
    cells[WIDTH..] + Blanks(WIDTH)
  }

  /** The start of the next line. */
  function NextLine(s: Screen): Screen
    requires |s.cells| == WIDTH * HEIGHT
  {
    if s.line + 1 >= HEIGHT then s.(cells := Scrolled(s.cells), line := HEIGHT - 1, col := 0)
    else s.(line := s.line + 1, col := 0)
  }

  predicate InBounds(s: Screen) {
    |s.cells| == WIDTH * HEIGHT && 0 <= s.line < HEIGHT && 0 <= s.col < WIDTH
  }

  function Type(s: Screen, c: Byte): (r: Screen)
    requires InBounds(s)
    ensures InBounds(r)
  {
    if IsNewline(c) then NextLine(s)
    else
      var t := s.(cells := s.cells[s.line * WIDTH + s.col := CellOf(c, s.color)]);
      if s.col + 1 >= WIDTH then NextLine(t) else t.(col := s.col + 1)
  }

  function Cleared(): Screen {
    Screen(Blanks(WIDTH * HEIGHT), 0, 0, GRAY)
  }

  // ----- what it means -----

  /** Everything printed since the screen was cleared, row after row, and the color in force. */
  datatype Paper = Paper(history: seq<Cell>, color: Color)

  /** A newline fills up the row; on a row not begun it makes an empty one. */
  function Print(p: Paper, c: Byte): Paper {
    p.(history := p.history +
       if IsNewline(c) then Blanks(WIDTH - |p.history| % WIDTH) else [CellOf(c, p.color)])
  }

  /** Line feed and carriage return both end the row, leaving the rest of it blank; any other byte adds one cell. */
  lemma PrintMeans(p: Paper, c: Byte)
    ensures var h, h' := p.history, Print(p, c).history;
      && Print(p, c).color == p.color && |h'| >= |h| && h'[..|h|] == h
      && if c == '\n' as int || c == '\r' as int then
           |h'| == (|h| / WIDTH + 1) * WIDTH && forall k :: |h| <= k < |h'| ==> h'[k] == BLANK
         else |h'| == |h| + 1 && h'[|h|] % 256 == c
  {
    CellReads(c, p.color);
    Rows(|p.history|);
  }

  lemma Rows(n: nat)
    ensures n + (WIDTH - n % WIDTH) == (n / WIDTH + 1) * WIDTH
  {
  }

  /** The number of rows that have scrolled off the screen. */
  function Top(history: seq<Cell>): int {
    var rows := |history| / WIDTH;
    if rows < HEIGHT then 0 else rows - (HEIGHT - 1)
  }

  function At(history: seq<Cell>, i: int): Cell {
    if 0 <= i < |history| then history[i] else BLANK
  }

  /** The screen shows the last rows, padded with blanks, and the cursor is at the end. */
  ghost predicate Shows(s: Screen, p: Paper) {
    && InBounds(s) && s.color == p.color
    && s.line == |p.history| / WIDTH - Top(p.history) && s.col == |p.history| % WIDTH
    && forall k :: 0 <= k < WIDTH * HEIGHT ==> s.cells[k] == At(p.history, Top(p.history) * WIDTH + k)
  }

  /** The cells show the rows from the given one on. */
  ghost predicate ShowsFrom(cells: seq<Cell>, history: seq<Cell>, top: int) {
    && |cells| == WIDTH * HEIGHT
    && forall k :: 0 <= k < WIDTH * HEIGHT ==> cells[k] == At(history, top * WIDTH + k)
  }

  /** Going to the next line once the row is full, scrolling if it was the last. */
  lemma NextLineShows(s: Screen, history: seq<Cell>, top: int)
    requires InBounds(s) && ShowsFrom(s.cells, history, top) && top >= 0
    requires |history| == (top + s.line + 1) * WIDTH && (top > 0 ==> s.line == HEIGHT - 1)
    ensures Shows(NextLine(s), Paper(history, s.color))
  {
    var r := NextLine(s);
    assert |history| / WIDTH == top + s.line + 1 && |history| % WIDTH == 0;
    if s.line + 1 >= HEIGHT {
      forall k | 0 <= k < WIDTH * HEIGHT
        ensures r.cells[k] == At(history, (top + 1) * WIDTH + k)
      {
        if k < WIDTH * (HEIGHT - 1) {
          assert r.cells[k] == s.cells[k + WIDTH];
        }
      }
    }
  }

  lemma RowAndColumn(p: Paper)
    ensures |p.history| == (Top(p.history) + (|p.history| / WIDTH - Top(p.history))) * WIDTH + |p.history| % WIDTH
  {
  }

  /** One character. */
  lemma TypeShows(s: Screen, p: Paper, c: Byte)
    requires Shows(s, p)
    ensures Shows(Type(s, c), Print(p, c))
  {
    var h, top := p.history, Top(p.history);
    var h' := Print(p, c).history;
    RowAndColumn(p);
    if IsNewline(c) {
      assert forall i :: 0 <= i ==> At(h', i) == At(h, i);
      NextLineShows(s, h', top);
    } else {
      var pos := s.line * WIDTH + s.col;
      assert |h| == top * WIDTH + pos;
      assert forall i :: 0 <= i && i != |h| ==> At(h', i) == At(h, i);
      var t := s.(cells := s.cells[pos := CellOf(c, s.color)]);
      assert ShowsFrom(t.cells, h', top);
      if s.col + 1 >= WIDTH {
        NextLineShows(t, h', top);
      } else {
        assert |h'| / WIDTH == |h| / WIDTH && |h'| % WIDTH == |h| % WIDTH + 1;
      }
    }
  }

  // ----- runs -----

  datatype Action = Typing(c: Byte) | SetColor(color: Color) | Clear

  function Step(s: Screen, a: Action): (r: Screen)
    requires InBounds(s)
    ensures InBounds(r)
  {
    match a
    case Typing(c) => Type(s, c)
    case SetColor(color) => s.(color := color)
    case Clear => Cleared()
  }

  function PaperStep(p: Paper, a: Action): Paper {
    match a
    case Typing(c) => Print(p, c)
    case SetColor(color) => p.(color := color)
    case Clear => Paper([], GRAY)
  }

  function Run(s: Screen, actions: seq<Action>): Screen
    requires InBounds(s)
    decreases |actions|
  {
    if actions == [] then s else Run(Step(s, actions[0]), actions[1..])
  }

  function PaperRun(p: Paper, actions: seq<Action>): Paper
    decreases |actions|
  {
    if actions == [] then p else PaperRun(PaperStep(p, actions[0]), actions[1..])
  }

  lemma ClearShows()
    ensures Shows(Cleared(), Paper([], GRAY))
    ensures forall k :: 0 <= k < 2000 ==> Cleared().cells[k] == BLANK
    ensures Cleared().line == 0 && Cleared().col == 0 && Cleared().color == 7
  {
  }

  /** Over every run the screen shows the end of the history. */
  lemma {:induction false} RunShows(s: Screen, p: Paper, actions: seq<Action>)
    requires Shows(s, p)
    ensures Shows(Run(s, actions), PaperRun(p, actions))
    decreases |actions|
  {
    if actions != [] {
      match actions[0] {
        case Typing(c) => TypeShows(s, p, c);
        case SetColor(_) =>
        case Clear => ClearShows();
      }
      RunShows(Step(s, actions[0]), PaperStep(p, actions[0]), actions[1..]);
    }
  }

  // ----- text -----

  predicate IsText(s: string) {
    forall k :: 0 <= k < |s| ==> 0 < s[k] as int < 256
  }

  function TypeText(s: Screen, text: string): (r: Screen)
    requires InBounds(s) && IsText(text)
    ensures InBounds(r)
    decreases |text|
  {
    if text == "" then s else TypeText(Type(s, text[0] as int), text[1..])
  }

  /** Text without line ends and high characters is appended cell by cell. */
  lemma {:induction false} TextShows(s: Screen, p: Paper, text: string)
    requires Shows(s, p) && forall k :: 0 <= k < |text| ==> ' ' <= text[k] <= '~'
    ensures IsText(text)
    ensures Shows(TypeText(s, text),
                  p.(history := p.history + seq(|text|, k requires 0 <= k < |text| => CellOf(text[k] as int, p.color))))
    decreases |text|
  {
    if text == "" {
      assert p.history + [] == p.history;
    } else {
      var c, rest := text[0] as int, text[1..];
      TypeShows(s, p, c);
      TextShows(Type(s, c), Print(p, c), rest);
      assert p.history + [CellOf(c, p.color)] + seq(|rest|, k requires 0 <= k < |rest| => CellOf(rest[k] as int, p.color))
          == p.history + seq(|text|, k requires 0 <= k < |text| => CellOf(text[k] as int, p.color));
    }
  }

  // ----- the class -----

  class TextMode {
    const cells: array<Cell>  // the memory of the display
    var line: int
    var col: int
    var color: Color

    ghost predicate Valid()
      reads this, cells
    {
      cells.Length == WIDTH * HEIGHT && 0 <= line < HEIGHT && 0 <= col < WIDTH
    }

    ghost function State(): (s: Screen)
      requires Valid()
      reads this, cells
      ensures InBounds(s)
    {
      Screen(cells[..], line, col, color)
    }

    constructor (cells: array<Cell>)
      requires cells.Length == WIDTH * HEIGHT
      ensures Valid() && this.cells == cells && State() == Screen(cells[..], 0, 0, GRAY)
    {
      this.cells, line, col, color := cells, 0, 0, GRAY;
    }

    method ScrollDown()
      requires cells.Length == WIDTH * HEIGHT
      modifies this, cells
      ensures cells[..] == Scrolled(old(cells[..])) && line == HEIGHT - 1 && col == old(col) && color == old(color)
    {
      var y := 1;
      while y < HEIGHT
        invariant 1 <= y <= HEIGHT && line == old(line) && col == old(col) && color == old(color)
        invariant forall k :: 0 <= k < WIDTH * HEIGHT ==>
          cells[k] == if k < (y - 1) * WIDTH then old(cells[k + WIDTH]) else old(cells[k])
      {
        var x := 0;
        while x < WIDTH
          invariant 0 <= x <= WIDTH && line == old(line) && col == old(col) && color == old(color)
          invariant forall k :: 0 <= k < WIDTH * HEIGHT ==>
            cells[k] == if k < (y - 1) * WIDTH + x then old(cells[k + WIDTH]) else old(cells[k])
        {
          cells[(y - 1) * WIDTH + x] := cells[y * WIDTH + x];
          x := x + 1;
        }
        y := y + 1;
      }
      var x := 0;
      while x < WIDTH
        invariant 0 <= x <= WIDTH && line == old(line) && col == old(col) && color == old(color)
        invariant forall k :: 0 <= k < (HEIGHT - 1) * WIDTH ==> cells[k] == old(cells[k + WIDTH])
        invariant forall k :: (HEIGHT - 1) * WIDTH <= k < (HEIGHT - 1) * WIDTH + x ==> cells[k] == BLANK
      {
        cells[(HEIGHT - 1) * WIDTH + x] := BLANK;
        x := x + 1;
      }
      line := HEIGHT - 1;
    }

    method Clear()
      requires cells.Length == WIDTH * HEIGHT
      modifies this, cells
      ensures Valid() && State() == Cleared()
    {
      color := GRAY;
      var y := 0;
      while y < HEIGHT
        invariant 0 <= y <= HEIGHT && color == GRAY
        invariant forall k :: 0 <= k < y * WIDTH ==> cells[k] == BLANK
      {
        var x := 0;
        while x < WIDTH
          invariant 0 <= x <= WIDTH && color == GRAY
          invariant forall k :: 0 <= k < y * WIDTH + x ==> cells[k] == BLANK
        {
          cells[y * WIDTH + x] := BLANK;
          x := x + 1;
        }
        y := y + 1;
      }
      line := 0;
      col := 0;
    }

    method PrintChar(c: Byte)
      requires Valid()
      modifies this, cells
      ensures Valid() && State() == Type(old(State()), c)
    {
      if IsNewline(c) {
        col := 0;
        line := line + 1;
        if line >= HEIGHT {
          ScrollDown();
        }
        return;
      }
      cells[line * WIDTH + col] := CellOf(c, color);
      col := col + 1;
      if col >= WIDTH {
        col := 0;
        line := line + 1;
        if line >= HEIGHT {
          ScrollDown();
        }
      }
    }

    /** prints, for a string of the given length in memory: s[n] is its terminator. */
    method PrintString(s: seq<char>, ghost n: nat)
      requires Valid() && n < |s| && s[n] == '\0' && IsText(s[..n])
      modifies this, cells
      ensures Valid() && State() == TypeText(old(State()), s[..n])
    {
      var i := 0;
      while s[i] != '\0'
        invariant 0 <= i <= n && Valid()
        invariant IsText(s[i..n]) && TypeText(State(), s[i..n]) == TypeText(old(State()), s[..n])
        decreases n - i
      {
        assert s[i..n][0] == s[i] && s[i..n][1..] == s[i + 1..n];
        PrintChar(s[i] as int);
        i := i + 1;
      }
    }

    /** printd, for 32-bit integers. The buffer is large enough. */
    method PrintDecimal(d: int)
      requires Valid() && -0x8000_0000 <= d < 0x8000_0000
      modifies this, cells
      ensures Valid() && IsText(N.Text(d, 10)) && State() == TypeText(old(State()), N.Text(d, 10))
    {
      var buffer := new char[32];
      N.TextLength(d, 10);
      TextIsText(d, 10);
      N.Itoa(buffer, 32, d, 10);
      var s := buffer[..];
      assert s[..|N.Text(d, 10)|] == N.Text(d, 10);
      PrintString(s, |N.Text(d, 10)|);
    }

    /** printx: the 64-bit word is passed on as a signed number. */
    method PrintHex(x: Word)
      requires Valid()
      modifies this, cells
      ensures Valid() && IsText("0x" + HexText(x)) && State() == TypeText(old(State()), "0x" + HexText(x))
    {
      var buffer := new char[32];
      var value := AsSigned(x);
      N.TextLength(value, 16);
      TextIsText(value, 16);
      N.Itoa(buffer, 32, value, 16);
      assert "0x\0"[..2] == "0x";
      PrintString("0x\0", 2);
      var s := buffer[..];
      assert s[..|HexText(x)|] == HexText(x);
      TypeTwice(old(State()), "0x", HexText(x));
      PrintString(s, |HexText(x)|);
    }
  }

  /** The conversion from uint64_t to int64_t. */
  function AsSigned(x: Word): N.Signed {
    if x < 0x8000_0000_0000_0000 then x else x - TWO_64
  }

  function HexText(x: Word): string {
    N.Text(AsSigned(x), 16)
  }

  /** printx prints the unsigned word. */
  lemma HexParses(x: Word)
    ensures N.Parse(HexText(x), 16) == x
  {
    hide N.Parse, N.Text;
    N.TextParses(AsSigned(x), 16);
  }

  lemma {:induction false} TypeTwice(s: Screen, a: string, b: string)
    requires InBounds(s) && IsText(a) && IsText(b)
    ensures IsText(a + b) && TypeText(s, a + b) == TypeText(TypeText(s, a), b)
    decreases |a|
  {
    if a == "" {
      assert a + b == b;
    } else {
      assert (a + b)[1..] == a[1..] + b;
      TypeTwice(Type(s, a[0] as int), a[1..], b);
    }
  }

  lemma TextIsText(value: N.Signed, b: N.Base)
    ensures IsText(N.Text(value, b))
  {
    hide N.Digits, N.Canonical, N.Value, N.Magnitude;
    N.DigitsParse(N.Magnitude(value, b), b);
    DigitsAreText(N.Digits(N.Magnitude(value, b), b), b);
  }

  lemma DigitsAreText(s: string, b: N.Base)
    requires N.Canonical(s, b)
    ensures IsText(s)
  {
    forall k | 0 <= k < |s|
      ensures 0 < s[k] as int < 256
    {
      assert N.IsDigit(s[k], b);
    }
  }
}
