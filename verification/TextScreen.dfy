// The framebuffer console (FbCons/Sources/Console.cpp) as a terminal over a grid of character cells: the
// escape state machine of section 5.4 of ECMA-48, as far as the code has it, colours, cursor and scrolling.
module TextScreen {
  import opened ByteOrder

  const SCROLL_AMOUNT: nat := 5
  const ANSI_BUF_SIZE: nat := 32
  const ESCAPE: Byte := 27
  const NEWLINE: Byte := 10
  const QUESTION: nat := 63

  // A cell: its glyph and its two pixel values.
  datatype Cell = Cell(glyph: nat, fg: nat, bg: nat)

  type Grid = seq<seq<Cell>>

  datatype Colors = Colors(fg: nat, bg: nat)

  datatype WriteState = Idle | AnsiEscapeStart | AnsiReadingCsi

  // What becomes of the kernel's warnings: filtered out, shown elsewhere only, or shown on this console too.
  datatype Warnings = Muted | Elsewhere | OnConsole

  // The pixels of a cell, from one row of pixels to the next, and in the framebuffer's memory.
  datatype Place = Place(width: nat, height: nat, stride: nat, length: nat)

  // Size in characters, the last glyph of the font, the palette's pixel values, whether scrolling may move
  // overlapping memory (the kernel's memcpy panics instead), where warnings go, and the memory drawn to.
  datatype Setup = Setup(cols: nat, rows: nat, maxGlyph: nat, palette: seq<nat>, moves: bool, warnings: Warnings,
                         place: Place)

  ghost predicate ValidSetup(c: Setup) {
    |c.palette| == 16
  }

  // The grid on show, as long as it is clean: every character has been drawn inside it.
  datatype Screen = Screen(cells: Grid, clean: bool, x: nat, y: nat, colors: Colors, state: WriteState, buf: seq<Byte>)

  // Undefined: parameter text read or written beyond the eight bytes kept for it, drawing outside the
  // framebuffer's memory, scrolling fewer than five rows, or a warning that runs out of the escape buffer.
  datatype Outcome = Undefined | Panics | Next(s: Screen)

  function Pixel(c: Setup, index: nat): nat
    requires |c.palette| == 16
  {
    c.palette[index % 16]
  }

  function Blank(c: Setup, s: Screen): Cell
    requires |c.palette| == 16
  {
    var bg := Pixel(c, s.colors.bg);
    Cell(QUESTION, bg, bg)
  }

  function BlankRow(c: Setup, cell: Cell): (r: seq<Cell>)
    ensures |r| == c.cols
  {
    seq(c.cols, _ => cell)
  }

  function EmptyGrid(c: Setup, cell: Cell): (r: Grid)
    ensures |r| == c.rows
  {
    seq(c.rows, _ => BlankRow(c, cell))
  }

  // The grid moved up by five rows, new rows blank.
  function Scrolled(c: Setup, cells: Grid, cell: Cell): (r: Grid)
    requires |cells| == c.rows >= SCROLL_AMOUNT
    ensures |r| == c.rows
  {
    cells[SCROLL_AMOUNT..] + seq(SCROLL_AMOUNT, _ => BlankRow(c, cell))
  }

  // Do the rows to be moved and the place they are moved to overlap?
  predicate ScrollOverlaps(c: Setup) { c.rows > 2 * SCROLL_AMOUNT }

  function NewLine(c: Setup, s: Screen): Outcome
    requires ValidSetup(c) && |s.cells| == c.rows
  {
    if s.y + 1 != c.rows then Next(s.(x := 0, y := s.y + 1))
    else if c.rows < SCROLL_AMOUNT then Undefined
    else if !c.moves && ScrollOverlaps(c) then Panics
    else Next(s.(x := 0, y := c.rows - SCROLL_AMOUNT, cells := Scrolled(c, s.cells, Blank(c, s))))
  }

  // A char is signed, and compared after conversion to size_t.
  function GlyphOf(c: Setup, ch: Byte): nat {
    if ch >= 128 || ch > c.maxGlyph then QUESTION else ch
  }

  predicate InGrid(c: Setup, s: Screen) { s.x < c.cols && s.y < c.rows }

  // One past the last pixel of the cell at column x, row y; the cells of the grid are all in memory.
  function CellEnd(p: Place, x: nat, y: nat): int {
    p.stride * (y * p.height + p.height - 1) + x * p.width + p.width
  }

  predicate CanDraw(c: Setup, s: Screen) {
    InGrid(c, s) || CellEnd(c.place, s.x, s.y) <= c.place.length
  }

  // The screen with a character drawn at the cursor. Outside the grid its pixels hit parts of other cells.
  function DrawnAt(c: Setup, s: Screen, cell: Cell): Screen
    requires SizedGrid(c, s.cells)
  {
    if InGrid(c, s) then s.(cells := Put(s.cells, s.x, s.y, cell), x := s.x + 1) else s.(clean := false, x := s.x + 1)
  }

  function Put(cells: Grid, x: nat, y: nat, cell: Cell): (r: Grid)
    requires y < |cells| && x < |cells[y]|
    ensures |r| == |cells| && forall k :: 0 <= k < |r| ==> |r[k]| == |cells[k]|
  {
    var row: seq<Cell> := cells[y][x := cell];
    cells[y := row]
  }

  function Print(c: Setup, s: Screen, ch: Byte): Outcome
    requires ValidSetup(c) && SizedGrid(c, s.cells)
  {
    if ch == NEWLINE then NewLine(c, s)
    else if !CanDraw(c, s) then Undefined
    else
      var drawn := DrawnAt(c, s, Cell(GlyphOf(c, ch), Pixel(c, s.colors.fg), Pixel(c, s.colors.bg)));
      if drawn.x == c.cols then NewLine(c, drawn) else Next(drawn)
  }

  ghost predicate SizedGrid(c: Setup, cells: Grid) {
    |cells| == c.rows && forall k :: 0 <= k < |cells| ==> |cells[k]| == c.cols
  }

  // ----- parameters -----

  // StrToInt: the leading digits.
  function StrToInt(s: seq<Byte>, acc: nat): nat
    decreases |s|
  {
    if s != [] && IsDigit(s[0]) then StrToInt(s[1..], acc * 10 + (s[0] - 48)) else acc
  }

  function Number(s: seq<Byte>): nat { StrToInt(s, 0) }

  predicate IsDigit(b: Byte) { 48 <= b <= 57 }

  // A parameter the eight bytes kept for it can hold, and in which StrToInt comes to an end.
  predicate Readable(p: seq<Byte>) {
    |p| <= 7 || (|p| == 8 && exists i :: 0 <= i < 8 && !IsDigit(p[i]))
  }

  // One SGR attribute.
  function Sgr(colors: Colors, s: seq<Byte>): Colors {
    if s == [] || s == [48] then Colors(0xF, 0x0)
    else
      var cmd := Number(s);
      if 30 <= cmd <= 37 then colors.(fg := cmd - 30)
      else if 40 <= cmd <= 47 then colors.(bg := cmd - 40)
      else if 90 <= cmd <= 97 then colors.(fg := cmd - 90 + 8)
      else if 100 <= cmd <= 107 then colors.(bg := cmd - 100 + 8)
      else colors
  }

  datatype MaybeColors = NoColors | SomeColors(colors: Colors)

  // The loop of processAnsiSgr over the text before the final byte; number is what has been collected.
  function SgrLoop(colors: Colors, number: seq<Byte>, text: seq<Byte>): MaybeColors
    decreases |text|
  {
    if text == [] || text[0] == 0 then
      if !Readable(number) then NoColors else SomeColors(if number == [] then colors else Sgr(colors, number))
    else if text[0] == 59 then
      if !Readable(number) then NoColors else SgrLoop(Sgr(colors, number), [], text[1..])
    else SgrLoop(colors, number + [text[0]], text[1..])
  }

  datatype Cursor = Cursor(x: nat, y: nat)

  // Positions count from one; zero and one are the same.
  function ToIndex(val: nat): nat {
    if val > 0 then val - 1 else 0
  }

  function Moved(p: Cursor, isRow: bool, s: seq<Byte>): Cursor {
    var to := ToIndex(Number(s));
    if isRow then p.(y := to) else p.(x := to)
  }

  datatype MaybeCursor = NoCursor | SomeCursor(p: Cursor)

  // The loop of processAnsiCup. A coordinate that is not given is left as it was.
  function CupLoop(p: Cursor, isRow: bool, number: seq<Byte>, text: seq<Byte>): MaybeCursor
    decreases |text|
  {
    if text == [] || text[0] == 0 then
      if !Readable(number) then NoCursor else SomeCursor(Moved(p, isRow, number))
    else if text[0] == 59 then
      if !Readable(number) then NoCursor else CupLoop(Moved(p, isRow, number), !isRow, [], text[1..])
    else CupLoop(p, isRow, number + [text[0]], text[1..])
  }

  // ----- the same by splitting the text into parameters first -----

  function UntilNul(s: seq<Byte>): (r: seq<Byte>)
    ensures |r| <= |s|
  {
    if s == [] || s[0] == 0 then [] else [s[0]] + UntilNul(s[1..])
  }

  // The parameters between semicolons; first is the start of the first one.
  function Params(first: seq<Byte>, s: seq<Byte>): (r: seq<seq<Byte>>)
    ensures r != []
    decreases |s|
  {
    if s == [] then [first]
    else if s[0] == 59 then [first] + Params([], s[1..])
    else Params(first + [s[0]], s[1..])
  }

  predicate AllReadable(params: seq<seq<Byte>>) {
    forall i :: 0 <= i < |params| ==> Readable(params[i])
  }

  // Every attribute in order; an empty last one counts for nothing.
  function SgrAll(colors: Colors, params: seq<seq<Byte>>): Colors
    decreases |params|
  {
    if params == [] then colors
    else if |params| == 1 && params[0] == [] then colors
    else SgrAll(Sgr(colors, params[0]), params[1..])
  }

  // Rows and columns in turn.
  function CupAll(p: Cursor, isRow: bool, params: seq<seq<Byte>>): Cursor
    decreases |params|
  {
    if params == [] then p else CupAll(Moved(p, isRow, params[0]), !isRow, params[1..])
  }

  lemma {:induction false} SgrLoopIs(colors: Colors, number: seq<Byte>, text: seq<Byte>)
    ensures var params := Params(number, UntilNul(text));
            SgrLoop(colors, number, text) == if AllReadable(params) then SomeColors(SgrAll(colors, params))
                else NoColors
    decreases |text|
  {
    var params := Params(number, UntilNul(text));
    if text == [] || text[0] == 0 {
      assert params == [number] && params[1..] == [];
    } else if text[0] == 59 {
      var rest := Params([], UntilNul(text[1..]));
      assert UntilNul(text)[1..] == UntilNul(text[1..]);
      assert params == [number] + rest && params[1..] == rest;
      ReadableCons(number, rest);
      SgrLoopIs(Sgr(colors, number), [], text[1..]);
    } else {
      assert UntilNul(text)[1..] == UntilNul(text[1..]);
      SgrLoopIs(colors, number + [text[0]], text[1..]);
    }
  }

  lemma {:induction false} CupLoopIs(p: Cursor, isRow: bool, number: seq<Byte>, text: seq<Byte>)
    ensures var params := Params(number, UntilNul(text));
            CupLoop(p, isRow, number, text) == if AllReadable(params) then SomeCursor(CupAll(p, isRow, params))
                else NoCursor
    decreases |text|
  {
    var params := Params(number, UntilNul(text));
    if text == [] || text[0] == 0 {
      assert params == [number] && params[1..] == [];
      assert CupAll(p, isRow, params) == CupAll(Moved(p, isRow, number), !isRow, []);
    } else if text[0] == 59 {
      var rest := Params([], UntilNul(text[1..]));
      assert UntilNul(text)[1..] == UntilNul(text[1..]);
      assert params == [number] + rest && params[1..] == rest;
      ReadableCons(number, rest);
      CupLoopIs(Moved(p, isRow, number), !isRow, [], text[1..]);
    } else {
      assert UntilNul(text)[1..] == UntilNul(text[1..]);
      CupLoopIs(p, isRow, number + [text[0]], text[1..]);
    }
  }

  // Too much text for one parameter stays too much.
  lemma {:induction false} LongParameter(colors: Colors, p: Cursor, isRow: bool, number: seq<Byte>, text: seq<Byte>)
    requires |number| > 8
    ensures SgrLoop(colors, number, text) == NoColors && CupLoop(p, isRow, number, text) == NoCursor
    decreases |text|
  {
    if text != [] && text[0] != 0 && text[0] != 59 {
      LongParameter(colors, p, isRow, number + [text[0]], text[1..]);
    }
  }

  lemma ReadableCons(first: seq<Byte>, rest: seq<seq<Byte>>)
    ensures AllReadable([first] + rest) <==> Readable(first) && AllReadable(rest)
  {
    hide Readable;
    var all := [first] + rest;
    if AllReadable(all) {
      assert Readable(all[0]);
      forall i | 0 <= i < |rest|
        ensures Readable(rest[i])
      {
        assert all[i + 1] == rest[i];
      }
    }
  }

  // ----- where a positioning sequence leaves the cursor -----

  // The last of n parameters that is a row (a column), when the first one is a row or not; negative if none is.
  function LastOf(row: bool, isRow: bool, n: nat): int {
    if (n % 2 == 1) == (row == isRow) then n - 1 else n - 2
  }

  // Only the last row and the last column parameter matter.
  lemma {:induction false} CupAllIs(p: Cursor, isRow: bool, params: seq<seq<Byte>>)
    ensures var row, col := LastOf(true, isRow, |params|), LastOf(false, isRow, |params|);
            && CupAll(p, isRow, params).y == (if row >= 0 then ToIndex(Number(params[row])) else p.y)
            && CupAll(p, isRow, params).x == (if col >= 0 then ToIndex(Number(params[col])) else p.x)
    decreases |params|
  {
    if params == [] {
      assert CupAll(p, isRow, params) == p;
    } else {
      CupAllIs(Moved(p, isRow, params[0]), !isRow, params[1..]);
    }
  }

  // The parameters of the sequence in the buffer.
  function Parameters(s: Screen): (params: seq<seq<Byte>>)
    ensures params != []
  {
    Params([], UntilNul(s.buf))
  }

  // The last row parameter is a row of the grid, and the last column parameter, if there is one, a column.
  predicate Steers(c: Setup, params: seq<seq<Byte>>)
    requires params != []
  {
    && Number(params[LastOf(true, true, |params|)]) <= c.rows
    && (|params| > 1 ==> Number(params[LastOf(false, true, |params|)]) <= c.cols)
  }

  // ----- one character -----

  // processAnsi, with the whole sequence in the buffer, final byte included; the final byte is overwritten.
  function ProcessAnsi(c: Setup, s: Screen): Outcome
    requires s.buf != []
  {
    var text, final := s.buf[..|s.buf| - 1], s.buf[|s.buf| - 1];
    if final == 109 then
      if text == [] then Next(s.(colors := Sgr(s.colors, [])))
      else
        match SgrLoop(s.colors, [], text)
        case NoColors => Undefined
        case SomeColors(colors) => Next(s.(colors := colors, buf := text + [0]))
    else if final == 72 then
      match CupLoop(Cursor(s.x, s.y), true, [], text)
      case NoCursor => Undefined
      case SomeCursor(p) => Next(s.(x := p.x, y := p.y, buf := text + [0]))
    else Warn(c, s)
  }

  const UNHANDLED: Byte := 85

  // The warning about an unknown final byte. It reads the buffer up to a NUL. Its text starts with a U; shown
  // on this console, where a sequence is still being read, this is one more final byte no one knows, so the
  // nested write puts it in the buffer and warns again before anything else happens.
  function Warn(c: Setup, s: Screen): (r: Outcome)
    ensures r.Next? ==> r.s.cells == s.cells
    decreases ANSI_BUF_SIZE - |s.buf|
  {
    match c.warnings
    case Muted => Next(s)
    case Elsewhere => if |s.buf| >= ANSI_BUF_SIZE && 0 !in s.buf then Undefined else Next(s)
    case OnConsole => if |s.buf| >= ANSI_BUF_SIZE then Undefined else Warn(c, s.(buf := s.buf + [UNHANDLED]))
  }

  function Write(c: Setup, s: Screen, ch: Byte): (r: Outcome)
    requires ValidSetup(c) && SizedGrid(c, s.cells)
    ensures r.Next? ==> SizedGrid(c, r.s.cells)
  {
    match s.state
    case Idle => if ch != ESCAPE then Print(c, s, ch) else Next(s.(state := AnsiEscapeStart))
    case AnsiEscapeStart => if ch == 91 then Next(s.(state := AnsiReadingCsi, buf := [])) else Next(s.(state := Idle))
    case AnsiReadingCsi =>
      var read := s.(buf := s.buf + [ch]);
      if 0x40 <= ch <= 0x7E then
        match ProcessAnsi(c, read)
        case Next(t) => Next(t.(state := Idle))
        case other => other
      else Next(if |read.buf| == ANSI_BUF_SIZE then read.(state := Idle) else read)
  }

  // ----- what every stream keeps -----

  ghost predicate Inv(c: Setup, s: Screen) {
    && ValidSetup(c) && SizedGrid(c, s.cells)
    && |s.buf| <= ANSI_BUF_SIZE && (s.state == AnsiReadingCsi ==> |s.buf| < ANSI_BUF_SIZE)
  }

  // Does this character end a sequence with parameters, or a cursor positioning sequence?
  predicate EndsSequence(s: Screen, ch: Byte) { s.state == AnsiReadingCsi && (ch == 72 || ch == 109) }

  predicate EndsCup(s: Screen, ch: Byte) { s.state == AnsiReadingCsi && ch == 72 }

  // Does this character end a sequence of another kind?
  predicate EndsUnknown(s: Screen, ch: Byte) {
    s.state == AnsiReadingCsi && 0x40 <= ch <= 0x7E && ch != 72 && ch != 109
  }

  // The warning about a sequence can be given: it does not come back to this console, and the sequence does not
  // fill the buffer to the last byte unless there is a NUL in it.
  predicate CanWarn(c: Setup, sequence: seq<Byte>) {
    match c.warnings
    case Muted => true
    case Elsewhere => |sequence| < ANSI_BUF_SIZE || 0 in sequence
    case OnConsole => false
  }

  // There is no line break on the last row of fewer than five.
  predicate CanBreak(c: Setup, s: Screen) { s.y + 1 != c.rows || c.rows >= SCROLL_AMOUNT }

  // What the code needs of the terminal before a character: the cursor where it can draw for one that is drawn,
  // readable parameters for one that ends a sequence, somewhere to warn for one that ends an unknown one.
  predicate Defined(c: Setup, s: Screen, ch: Byte) {
    match s.state
    case Idle =>
      if ch == ESCAPE then true
      else if ch == NEWLINE then CanBreak(c, s)
      else CanDraw(c, s) && (s.x + 1 == c.cols ==> CanBreak(c, s))
    case AnsiEscapeStart => true
    case AnsiReadingCsi =>
      && (EndsSequence(s, ch) ==> AllReadable(Parameters(s)))
      && (EndsUnknown(s, ch) ==> CanWarn(c, s.buf + [ch]))
  }

  // A character is undefined exactly when that is not given: for a known sequence, when one of its parameters has
  // nine characters or more, or eight and all of them digits; for an unknown one, when its warning is shown here.
  lemma UndefinedExact(c: Setup, s: Screen, ch: Byte)
    requires Inv(c, s)
    ensures Write(c, s, ch) == Undefined <==> !Defined(c, s, ch)
  {
    hide SgrLoop, CupLoop, Params, UntilNul, SgrAll, CupAll, Scrolled, Put, GlyphOf, AllReadable, CellEnd, Warn;
    WarnExact(c, s.(buf := if s.state == AnsiReadingCsi then s.buf + [ch] else []));
    assert (s.buf + [ch])[..|s.buf|] == s.buf;
    SgrLoopIs(s.colors, [], s.buf);
    CupLoopIs(Cursor(s.x, s.y), true, [], s.buf);
    NoParameters(s);
  }

  lemma WarnExact(c: Setup, s: Screen)
    requires |s.buf| <= ANSI_BUF_SIZE
    ensures Warn(c, s) == if CanWarn(c, s.buf) then Next(s) else Undefined
  {
    if c.warnings.OnConsole? {
      NeverReturns(c, s);
    }
  }

  // What n nested warnings put in the buffer.
  function Again(n: nat): (r: seq<Byte>)
    ensures |r| == n
  {
    if n == 0 then [] else [UNHANDLED] + Again(n - 1)
  }

  lemma WarnStep(c: Setup, s: Screen)
    requires c.warnings.OnConsole?
    ensures Warn(c, s) == if |s.buf| >= ANSI_BUF_SIZE then Undefined else Warn(c, s.(buf := s.buf + [UNHANDLED]))
  {
  }

  // Shown on this console, each warning leads to the next with one more byte in the buffer.
  lemma {:induction false} WarnsAgain(c: Setup, s: Screen, n: nat)
    requires c.warnings.OnConsole? && |s.buf| + n <= ANSI_BUF_SIZE
    ensures Warn(c, s) == Warn(c, s.(buf := s.buf + Again(n)))
    decreases n
  {
    hide Warn;
    if n == 0 {
      assert s.buf + Again(0) == s.buf;
    } else {
      var next := s.(buf := s.buf + [UNHANDLED]);
      WarnStep(c, s);
      WarnsAgain(c, next, n - 1);
      assert next.buf + Again(n - 1) == s.buf + Again(n);
    }
  }

  // With the buffer full the next one is written past its end: the first warning never comes back.
  lemma NeverReturns(c: Setup, s: Screen)
    requires c.warnings.OnConsole? && |s.buf| <= ANSI_BUF_SIZE
    ensures Warn(c, s) == Undefined
    ensures var n: nat := ANSI_BUF_SIZE - |s.buf|;
            |s.buf + Again(n)| == ANSI_BUF_SIZE && Warn(c, s) == Warn(c, s.(buf := s.buf + Again(n)))
  {
    hide Warn;
    var n: nat := ANSI_BUF_SIZE - |s.buf|;
    WarnsAgain(c, s, n);
    WarnStep(c, s.(buf := s.buf + Again(n)));
  }

  lemma NoParameters(s: Screen)
    ensures s.buf == [] ==> AllReadable(Parameters(s))
  {
  }

  // Whatever is written: the escape buffer never overflows, the grid keeps its size, only a cursor positioning
  // sequence can take the cursor out of the grid, and only a scroll of more than ten rows panics.
  lemma WriteKeeps(c: Setup, s: Screen, ch: Byte)
    requires Inv(c, s)
    ensures var r := Write(c, s, ch);
            && (r.Next? ==> Inv(c, r.s))
            && (r.Next? && InGrid(c, s) && !EndsCup(s, ch) ==> InGrid(c, r.s))
            && (r.Next? && InGrid(c, s) ==> r.s.clean == s.clean)
            && (r == Panics ==> s.state == Idle && !c.moves && c.rows > 10 && s.y + 1 == c.rows)
  {
    hide Write, Print, SizedGrid, CellEnd;
    match s.state {
      case Idle =>
        WriteIdle(c, s, ch);
        if ch != ESCAPE {
          PrintKeeps(c, s, ch);
        }
      case AnsiEscapeStart =>
        WriteStart(c, s, ch);
      case AnsiReadingCsi =>
        SequenceKeeps(c, s, ch);
    }
  }

  lemma WriteIdle(c: Setup, s: Screen, ch: Byte)
    requires ValidSetup(c) && SizedGrid(c, s.cells) && s.state == Idle
    ensures Write(c, s, ch) == if ch != ESCAPE then Print(c, s, ch) else Next(s.(state := AnsiEscapeStart))
  {
    hide Print;
  }

  lemma WriteStart(c: Setup, s: Screen, ch: Byte)
    requires ValidSetup(c) && SizedGrid(c, s.cells) && s.state == AnsiEscapeStart
    ensures Write(c, s, ch) ==
            Next(if ch == 91 then s.(state := AnsiReadingCsi, buf := []) else s.(state := Idle))
  {
  }

  lemma SequenceKeeps(c: Setup, s: Screen, ch: Byte)
    requires Inv(c, s) && s.state == AnsiReadingCsi
    ensures var r := Write(c, s, ch);
            && r != Panics
            && (r.Next? ==> Inv(c, r.s) && r.s.clean == s.clean && (ch != 72 ==> r.s.x == s.x && r.s.y == s.y))
  {
    hide SizedGrid, SgrLoop, CupLoop, Print, Warn;
    WarnExact(c, s.(buf := s.buf + [ch]));
  }

  lemma PrintKeeps(c: Setup, s: Screen, ch: Byte)
    requires Inv(c, s)
    ensures var r := Print(c, s, ch);
            && (r.Next? ==> Inv(c, r.s.(state := s.state)) && r.s.state == s.state && r.s.buf == s.buf)
            && (r.Next? && InGrid(c, s) ==> InGrid(c, r.s) && r.s.clean == s.clean)
            && (r == Panics ==> !c.moves && ScrollOverlaps(c) && s.y + 1 == c.rows)
  {
    hide GlyphOf;
    if ch == NEWLINE {
      NewLineKeeps(c, s);
    } else {
      NewLineKeeps(c, DrawnAt(c, s, Cell(GlyphOf(c, ch), Pixel(c, s.colors.fg), Pixel(c, s.colors.bg))));
    }
  }

  lemma NewLineKeeps(c: Setup, s: Screen)
    requires ValidSetup(c) && SizedGrid(c, s.cells)
    ensures var r := NewLine(c, s);
            && (r == Panics ==> s.y + 1 == c.rows && !c.moves && ScrollOverlaps(c))
            && (r.Next? ==> SizedGrid(c, r.s.cells) && r.s == s.(x := 0, y := r.s.y, cells := r.s.cells))
            && (r.Next? && s.y < c.rows ==> r.s.y < c.rows)
  {
  }

  // After a positioning sequence the cursor is in the grid if and only if the last row parameter is at most the
  // number of rows and the last column parameter, if any, at most the number of columns.
  lemma CursorExact(c: Setup, s: Screen, ch: Byte)
    requires Inv(c, s) && InGrid(c, s) && EndsCup(s, ch) && Defined(c, s, ch)
    ensures Write(c, s, ch).Next?
    ensures InGrid(c, Write(c, s, ch).s) <==> Steers(c, Parameters(s))
  {
    hide SgrLoop, CupLoop, Params, UntilNul, CupAll, Number, AllReadable;
    assert (s.buf + [ch])[..|s.buf|] == s.buf;
    CupLoopIs(Cursor(s.x, s.y), true, [], s.buf);
    CupAllIs(Cursor(s.x, s.y), true, Parameters(s));
  }

  // ----- whole strings -----

  function WriteText(c: Setup, s: Screen, text: seq<Byte>): Outcome
    requires ValidSetup(c) && SizedGrid(c, s.cells)
    decreases |text|
  {
    if text == [] then Next(s)
    else
      var r := Write(c, s, text[0]);
      if r.Next? then WriteText(c, r.s, text[1..]) else r
  }

  // Every character finds what it needs.
  ghost predicate AllDefined(c: Setup, s: Screen, text: seq<Byte>)
    requires ValidSetup(c) && SizedGrid(c, s.cells)
    decreases |text|
  {
    text != [] ==>
      && Defined(c, s, text[0])
      && var r := Write(c, s, text[0]); r.Next? ==> AllDefined(c, r.s, text[1..])
  }

  // Every sequence that ends in the string has readable parameters or can be warned about, every positioning one
  // stays in the grid.
  ghost predicate Tame(c: Setup, s: Screen, text: seq<Byte>)
    requires ValidSetup(c) && SizedGrid(c, s.cells)
    decreases |text|
  {
    text != [] ==>
      && (EndsSequence(s, text[0]) ==> AllReadable(Parameters(s)))
      && (EndsUnknown(s, text[0]) ==> CanWarn(c, s.buf + [text[0]]))
      && (EndsCup(s, text[0]) ==> Steers(c, Parameters(s)))
      && var r := Write(c, s, text[0]); r.Next? ==> Tame(c, r.s, text[1..])
  }

  lemma InvSized(c: Setup, s: Screen)
    requires Inv(c, s)
    ensures ValidSetup(c) && SizedGrid(c, s.cells)
  {
  }

  // A string is undefined exactly when one of its characters is.
  lemma {:induction false} TextExact(c: Setup, s: Screen, text: seq<Byte>)
    requires Inv(c, s)
    ensures WriteText(c, s, text) == Undefined <==> !AllDefined(c, s, text)
    ensures WriteText(c, s, text).Next? ==> Inv(c, WriteText(c, s, text).s)
    decreases |text|
  {
    hide Inv, Write, Defined;
    InvSized(c, s);
    if text == [] {
      assert WriteText(c, s, text) == Next(s);
    } else {
      WriteKeeps(c, s, text[0]);
      UndefinedExact(c, s, text[0]);
      var r := Write(c, s, text[0]);
      if r.Next? {
        TextExact(c, r.s, text[1..]);
      }
    }
  }

  // On at least five rows a tame string is never undefined, leaves the cursor in the grid and the screen clean.
  lemma {:induction false} RunKeeps(c: Setup, s: Screen, text: seq<Byte>)
    requires Inv(c, s) && InGrid(c, s) && c.rows >= SCROLL_AMOUNT && Tame(c, s, text)
    ensures AllDefined(c, s, text)
    ensures var r := WriteText(c, s, text);
            r.Next? ==> Inv(c, r.s) && InGrid(c, r.s) && (r.s.clean <==> s.clean)
    decreases |text|
  {
    hide Inv, Write, Steers, Parameters, AllReadable, CellEnd, CanWarn;
    InvSized(c, s);
    if text == [] {
      assert WriteText(c, s, text) == Next(s);
    } else {
      WriteKeeps(c, s, text[0]);
      if EndsCup(s, text[0]) {
        CursorExact(c, s, text[0]);
      }
      var r := Write(c, s, text[0]);
      if r.Next? {
        RunKeeps(c, r.s, text[1..]);
      }
    }
  }

  // With more than ten rows the first scroll of the code as it stands is a panic: a full line break on the
  // last row panics exactly then.
  lemma ScrollPanicsExact(c: Setup, s: Screen)
    requires Inv(c, s) && s.state == Idle && s.y + 1 == c.rows && !c.moves
    ensures Write(c, s, NEWLINE) == Panics <==> c.rows > 10
  {
  }

  // ----- inputs that fail, and one that does not -----

  lemma {:induction false} PlainText(first: seq<Byte>, text: seq<Byte>)
    requires forall i :: 0 <= i < |text| ==> text[i] != 0 && text[i] != 59
    ensures UntilNul(text) == text && Params(first, text) == [first + text]
    decreases |text|
  {
    if text == [] {
      assert first + text == first;
    } else {
      PlainText(first + [text[0]], text[1..]);
      assert first + [text[0]] + text[1..] == first + text;
      assert [text[0]] + text[1..] == text;
    }
  }

  lemma OneParameter(text: seq<Byte>)
    requires forall i :: 0 <= i < |text| ==> text[i] != 0 && text[i] != 59
    ensures Params([], UntilNul(text)) == [text]
  {
    PlainText([], text);
    assert [] + text == text;
  }

  // ESC [ 1 2 3 4 5 6 7 8 m fills all eight bytes with digits: the number has no end.
  lemma EightDigits(c: Setup, s: Screen)
    requires Inv(c, s) && s.state == AnsiReadingCsi && s.buf == [49, 50, 51, 52, 53, 54, 55, 56]
    ensures Write(c, s, 109) == Undefined
  {
    hide UntilNul, Params, Write;
    OneParameter(s.buf);
    UndefinedExact(c, s, 109);
    assert !Readable(Parameters(s)[0]);
  }

  // With a colon in the last place it has one, and is the number of no colour.
  lemma EndsInColon(c: Setup, s: Screen)
    requires Inv(c, s) && s.state == AnsiReadingCsi && s.buf == [49, 50, 51, 52, 53, 54, 55, 58]
    ensures Write(c, s, 109) == Next(s.(state := Idle, buf := s.buf + [0]))
  {
    hide UntilNul, Params, SgrLoop, CupLoop, Number;
    OneParameter(s.buf);
    assert !IsDigit(s.buf[7]);
    SgrLoopIs(s.colors, [], s.buf);
    assert (s.buf + [109])[..|s.buf|] == s.buf;
    SevenDigits(s.buf);
    assert SgrAll(s.colors, [s.buf]) == SgrAll(Sgr(s.colors, s.buf), []);
  }

  // The first digit, and the rest.
  lemma NextDigit(s: seq<Byte>, acc: nat)
    requires s != [] && IsDigit(s[0])
    ensures StrToInt(s, acc) == StrToInt(s[1..], acc * 10 + (s[0] - 48))
  {
  }

  lemma SevenDigits(s: seq<Byte>)
    requires s == [49, 50, 51, 52, 53, 54, 55, 58]
    ensures Number(s) == 1234567
  {
    hide StrToInt;
    NextDigit(s, 0);
    NextDigit(s[1..], 1);
    NextDigit(s[2..], 12);
    NextDigit(s[3..], 123);
    NextDigit(s[4..], 1234);
    NextDigit(s[5..], 12345);
    NextDigit(s[6..], 123456);
    NoDigit(s[7..], 1234567);
  }

  lemma NoDigit(s: seq<Byte>, acc: nat)
    requires s == [] || !IsDigit(s[0])
    ensures StrToInt(s, acc) == acc
  {
  }

  // ESC [ J, like every sequence of a kind the console does not know, is lost when warnings are shown on this
  // console, and skipped when they are not.
  lemma UnknownSequence(c: Setup, s: Screen, ch: Byte)
    requires Inv(c, s) && s.state == AnsiReadingCsi && s.buf == [] && 0x40 <= ch <= 0x7E && ch != 72 && ch != 109
    ensures Write(c, s, ch) == if c.warnings.OnConsole? then Undefined else Next(s.(state := Idle, buf := [ch]))
  {
    hide Warn, SgrLoop, CupLoop;
    var read := s.(buf := s.buf + [ch]);
    assert read.buf == [ch];
    WarnExact(c, read);
  }

  // Of 32 bytes without a NUL the warning reads more than there are, wherever it is shown.
  lemma FullBuffer(c: Setup, s: Screen, ch: Byte)
    requires Inv(c, s) && EndsUnknown(s, ch) && |s.buf| == ANSI_BUF_SIZE - 1 && 0 !in s.buf
    ensures Write(c, s, ch) == Undefined <==> !c.warnings.Muted?
  {
    hide Warn, SgrLoop, CupLoop;
    WarnExact(c, s.(buf := s.buf + [ch]));
  }

  // ESC [ 9 9 9 9 H takes the cursor out of every grid with fewer rows.
  lemma BeyondTheRows(c: Setup, s: Screen)
    requires Inv(c, s) && InGrid(c, s) && s.state == AnsiReadingCsi && s.buf == [57, 57, 57, 57]
    ensures Write(c, s, 72).Next?
    ensures InGrid(c, Write(c, s, 72).s) <==> c.rows >= 9999
  {
    hide UntilNul, Params, Write, StrToInt;
    OneParameter(s.buf);
    NextDigit(s.buf, 0);
    NextDigit(s.buf[1..], 9);
    NextDigit(s.buf[2..], 99);
    NextDigit(s.buf[3..], 999);
    NoDigit(s.buf[4..], 9999);
    CursorExact(c, s, 72);
  }
}
