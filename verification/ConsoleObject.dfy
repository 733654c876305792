// The console object: cursor, colours, escape buffer and framebuffer, updated in place character by
// character.
module ConsoleObject {
  import opened Division
  import opened ByteOrder
  import opened Words
  import opened TextScreen
  import opened FramebufferConsole

  // Draws into the framebuffer: `rows` rows of pixels, `stride` pixels apart.
  class Painter {
    const buffer: array<nat>
    const font: Font
    const stride: nat
    const rows: nat

    // With no stride given rows are tightly packed.
    constructor (buffer: array<nat>, font: Font, width: nat, height: nat, stride: nat)
      requires (if stride == 0 then width else stride) * height <= buffer.Length
      ensures this.buffer == buffer && this.font == font && rows == height
      ensures this.stride == (if stride == 0 then width else stride) && Fits()
    {
      this.buffer, this.font, rows := buffer, font, height;
      this.stride := if stride == 0 then width else stride;
    }

    ghost predicate Fits() {
      stride * rows <= buffer.Length
    }

    ghost function View(): (p: Pixels)
      requires Fits()
      reads buffer
      ensures |p| == rows && forall y :: 0 <= y < rows ==> |p[y]| == stride
    {
      AsRows(buffer[..], stride, rows)
    }

    // What it draws to.
    function Where(): Place {
      Place(font.width, font.height, stride, buffer.Length)
    }

    // *ptr = pixel; this is pixel x of row y if the pointer points there.
    method Put(ptr: nat, pixel: nat, ghost y: nat, ghost x: nat)
      requires Fits() && ptr < buffer.Length
      modifies buffer
      ensures y < rows && x < stride && ptr == stride * y + x ==>
                forall py, px :: 0 <= py < rows && 0 <= px < stride ==>
                  View()[py][px] == if py == y && px == x then pixel else old(View())[py][px]
    {
      ghost var was := buffer[..];
      if y < rows && x < stride && ptr == stride * y + x {
        PixelWritten(was, stride, rows, y, x, pixel);
      }
      buffer[ptr] := pixel;
      assert buffer[..] == was[ptr := pixel];
    }

    // One pixel row of a glyph, from data byte fd on; the byte its last pixel came from.
    method DrawRow(ptr: nat, cell: Cell, gy: nat, fd0: nat, ghost row: nat, ghost left: nat) returns (fd: nat)
      requires Fits() && ptr + font.width <= buffer.Length && ptr == stride * row + left
      requires font.width > 0 && InFont(font, cell.glyph) && gy < font.height
      requires fd0 == DataIndex(font, cell.glyph, 0, gy)
      modifies buffer
      ensures fd == fd0 + Steps(font.width)
      ensures row < rows && left + font.width <= stride ==>
                forall py, px :: 0 <= py < rows && 0 <= px < stride ==>
                  View()[py][px] == if py == row && left <= px < left + font.width then Shade(font, cell, px - left, gy)
                                    else old(View())[py][px]
    {
      fd := fd0;
      var rowPtr := ptr;
      var gx := 0;
      ghost var inside := row < rows && left + font.width <= stride;
      while gx < font.width
        invariant gx <= font.width && fd == fd0 + Steps(gx) && rowPtr == ptr + gx
        invariant inside ==> forall py, px :: 0 <= py < rows && 0 <= px < stride ==>
                    View()[py][px] == if py == row && left <= px < left + gx then Shade(font, cell, px - left, gy)
                                      else old(View())[py][px]
      {
        IndexInData(font, cell.glyph, gx, gy);
        assert fd == DataIndex(font, cell.glyph, gx, gy);
        Put(rowPtr, if Bit(font.data[fd], gx % 8) then cell.fg else cell.bg, row, left + gx);
        rowPtr := rowPtr + 1;
        if gx != 0 && gx % 8 == 0 {
          fd := fd + 1;
        }
        gx := gx + 1;
      }
    }

    // drawChar, for the cell whose corner is row top, column left. Every pixel is in memory if the last one is.
    method DrawCell(corner: nat, cell: Cell, ghost top: nat, ghost left: nat)
      requires Fits() && font.width > 0 && font.height > 0 && InFont(font, cell.glyph) && corner == stride * top + left
      requires stride * (top + font.height - 1) + left + font.width <= buffer.Length
      modifies buffer
      ensures top + font.height <= rows && left + font.width <= stride ==>
                forall py, px :: 0 <= py < rows && 0 <= px < stride ==>
                  View()[py][px] == if top <= py < top + font.height && left <= px < left + font.width
                                    then Shade(font, cell, px - left, py - top) else old(View())[py][px]
    {
      hide InFont, Shade, AsRows;
      var fontData := cell.glyph * font.stride;
      var ptr := corner;
      var gy := 0;
      ghost var inside := top + font.height <= rows && left + font.width <= stride;
      while gy < font.height
        invariant gy <= font.height && fontData == cell.glyph * font.stride + gy * RowBytes(font)
        invariant ptr == stride * (top + gy) + left
        invariant inside ==> forall py, px :: 0 <= py < rows && 0 <= px < stride ==>
                    View()[py][px] == if top <= py < top + gy && left <= px < left + font.width
                                      then Shade(font, cell, px - left, py - top) else old(View())[py][px]
      {
        MulMonotone(stride, top + gy, top + font.height - 1);
        fontData := DrawRow(ptr, cell, gy, fontData, top + gy, left);
        fontData := fontData + 1;
        NextRow(font, cell.glyph, gy);
        RowAfter(stride, top + gy);
        ptr := ptr + stride;
        gy := gy + 1;
      }
    }

    // drawChar at column x, row y of the text, wherever its pixels are in memory
    method DrawChar(x: nat, y: nat, cell: Cell)
      requires Fits() && font.width > 0 && font.height > 0 && InFont(font, cell.glyph)
      requires CellEnd(Where(), x, y) <= buffer.Length
      modifies buffer
      ensures (y + 1) * font.height <= rows && (x + 1) * font.width <= stride ==>
                Drawn(font, cell, x, y, old(View()), View())
    {
      hide InFont, Shade, AsRows;
      ghost var was := View();
      NextCell(x, font.width);
      NextCell(y, font.height);
      var yOff := stride * (y * font.height);
      DrawCell(yOff + x * font.width, cell, y * font.height, x * font.width);
      ghost var now := View();
      if (y + 1) * font.height <= rows && (x + 1) * font.width <= stride {
        forall py: nat, px: nat | py < |was| && px < |was[py]|
          ensures now[py][px] == DrawnPixel(font, cell, x, y, was[py][px], py, px)
        {
        }
      }
    }

    // The move and the clearing of a scroll by five text rows.
    method Scroll(c: Setup, width: nat, bg: nat)
      requires Fits() && c.rows >= SCROLL_AMOUNT && c.rows * font.height <= rows
      requires c.cols * font.width <= width <= stride
      modifies buffer
      ensures ScrolledPixels(font, c, bg, old(View()), View())
    {
      hide AsRows, ScrolledPixels;
      ghost var was := View();
      SplitRows(c, font.height);
      var moved := (c.rows - SCROLL_AMOUNT) * font.height;
      var down := SCROLL_AMOUNT * font.height;
      MoveBlock(moved, down);
      ghost var mid := View();
      FillRows(stride * moved, down, width, bg, moved);
      ScrollDone(font, c, bg, width, moved, down, was, mid, View());
    }

    // n rows of one colour from pixel ptr on, the first of row `from`
    method FillRows(ptr: nat, n: nat, width: nat, pixel: nat, ghost from: nat)
      requires Fits() && from + n <= rows && width <= stride && ptr == stride * from
      modifies buffer
      ensures forall py, px :: 0 <= py < rows && 0 <= px < stride ==>
                View()[py][px] == if from <= py < from + n && px < width then pixel else old(View())[py][px]
    {
      hide AsRows;
      var clearPtr := ptr;
      for y := 0 to n
        invariant clearPtr == stride * (from + y)
        invariant forall py, px :: 0 <= py < rows && 0 <= px < stride ==>
                    View()[py][px] == if from <= py < from + y && px < width then pixel else old(View())[py][px]
      {
        FillRow(clearPtr, width, pixel, from + y);
        RowAfter(stride, from + y);
        clearPtr := clearPtr + stride;
      }
    }

    method FillRow(ptr: nat, width: nat, pixel: nat, ghost y: nat)
      requires Fits() && y < rows && width <= stride && ptr == stride * y
      modifies buffer
      ensures forall py, px :: 0 <= py < rows && 0 <= px < stride ==>
                View()[py][px] == if py == y && px < width then pixel else old(View())[py][px]
    {
      hide AsRows;
      RowEnd(stride, y, rows);
      var rowPtr := ptr;
      for x := 0 to width
        invariant rowPtr == ptr + x && ptr + stride <= buffer.Length
        invariant forall py, px :: 0 <= py < rows && 0 <= px < stride ==>
                    View()[py][px] == if py == y && px < x then pixel else old(View())[py][px]
      {
        Put(rowPtr, pixel, y, x);
        rowPtr := rowPtr + 1;
      }
    }

    // The block copy of a scroll: n rows from delta rows further down to the front.
    method MoveBlock(n: nat, delta: nat)
      requires Fits() && n + delta <= rows
      modifies buffer
      ensures forall py, px :: 0 <= py < rows && 0 <= px < stride ==>
                View()[py][px] == if py < n then old(View())[py + delta][px] else old(View())[py][px]
    {
      BlockEnd(stride, n, delta, rows);
      ghost var was := buffer[..];
      var toMove, yOff := stride * n, stride * delta;
      forall k | 0 <= k < toMove {
        buffer[k] := buffer[k + yOff];
      }
      BlockMoved(was, buffer[..], stride, rows, n, delta, toMove, yOff);
    }
  }

  // The cells of the grid end inside the framebuffer.
  lemma GridCellEnd(p: Place, x: nat, y: nat, rows: nat)
    requires p.height > 0 && p.stride * rows <= p.length
    requires (y + 1) * p.height <= rows && (x + 1) * p.width <= p.stride
    ensures CellEnd(p, x, y) <= p.length
  {
    NextCell(x, p.width);
    NextCell(y, p.height);
    var last: nat := y * p.height + p.height - 1;
    MulMonotone(p.stride, last + 1, rows);
    assert p.stride * (last + 1) == p.stride * last + p.stride;
  }

  // A pixel of a cell is in memory if and only if it comes before the end; all of them are if and only if the
  // last one is.
  lemma CellInMemory(p: Place, x: nat, y: nat)
    requires p.width > 0 && p.height > 0
    ensures CellEnd(p, x, y) <= p.length <==>
              forall gy: nat, gx: nat :: gy < p.height && gx < p.width ==> PixelAt(p, x, y, gy, gx) < p.length
  {
    var h: nat, w: nat := p.height - 1, p.width - 1;
    assert PixelAt(p, x, y, h, w) == CellEnd(p, x, y) - 1;
    forall gy: nat, gx: nat | gy < p.height && gx < p.width
      ensures PixelAt(p, x, y, gy, gx) < CellEnd(p, x, y)
    {
      MulMonotone(p.stride, y * p.height + gy, y * p.height + h);
    }
  }

  // Where drawChar puts pixel (gx, gy) of the cell at column x, row y.
  function PixelAt(p: Place, x: nat, y: nat, gy: nat, gx: nat): int {
    p.stride * (y * p.height + gy) + x * p.width + gx
  }

  lemma RowAfter(stride: nat, y: nat)
    ensures stride * (y + 1) == stride * y + stride
  {
  }

  lemma BlockEnd(stride: nat, n: nat, delta: nat, rows: nat)
    requires n + delta <= rows
    ensures 0 <= stride * n && 0 <= stride * delta && stride * n + stride * delta <= stride * rows
  {
    MulMonotone(stride, n + delta, rows);
    assert stride * (n + delta) == stride * n + stride * delta;
  }

  lemma NextRow(f: Font, glyph: nat, gy: nat)
    requires f.width > 0
    ensures gy * RowBytes(f) + Steps(f.width) + 1 == (gy + 1) * RowBytes(f)
  {
  }

  lemma NextCell(k: nat, size: nat)
    ensures (k + 1) * size == k * size + size
  {
  }

  lemma SplitRows(c: Setup, h: nat)
    requires c.rows >= SCROLL_AMOUNT
    ensures (c.rows - SCROLL_AMOUNT) * h + SCROLL_AMOUNT * h == c.rows * h
  {
  }

  // The two parts of a scroll, pixel by pixel.
  lemma ScrollDone(f: Font, c: Setup, bg: nat, width: nat, moved: nat, down: nat, was: Pixels, mid: Pixels, now: Pixels)
    requires c.rows >= SCROLL_AMOUNT && SameSize(was, mid) && SameSize(was, now) && c.cols * f.width <= width
    requires moved == MovedRows(f, c) && down == SCROLL_AMOUNT * f.height && moved + down == c.rows * f.height <= |was|
    requires forall py, px :: 0 <= py < |was| && 0 <= px < |was[py]| ==>
               (py < moved ==> px < |was[py + down]| ==> mid[py][px] == was[py + down][px])
    requires forall py, px :: 0 <= py < |was| && 0 <= px < |was[py]| ==>
               now[py][px] == if moved <= py < moved + down && px < width then bg else mid[py][px]
    ensures ScrolledPixels(f, c, bg, was, now)
  {
  }

  class Console {
    const painter: Painter
    const c: Setup
    const width: nat
    const height: nat
    const ansiBuf: array<Byte>
    var ansiBufUsed: nat
    var cursorX: nat
    var cursorY: nat
    var fgIndex: nat
    var bgIndex: nat
    var fgColor: nat
    var bgColor: nat
    var writeState: WriteState
    ghost var cells: Grid
    ghost var clean: bool

    ghost predicate Fits() {
      && ValidSetup(c) && ValidFont(painter.font) && c.maxGlyph == painter.font.maxGlyph
      && c.cols * painter.font.width <= width <= painter.stride
      && c.rows * painter.font.height <= height <= painter.rows && painter.Fits() && c.place == painter.Where()
      && ansiBuf.Length == ANSI_BUF_SIZE
      && (ansiBuf as object) != painter.buffer && (this as object) != painter.buffer && (this as object) != ansiBuf
    }

    // The terminal this console is, all but the pixels.
    ghost function State(): Screen
      requires ansiBufUsed <= ansiBuf.Length
      reads this, ansiBuf
    {
      Screen(cells, clean, cursorX, cursorY, Colors(fgIndex, bgIndex), writeState, ansiBuf[..ansiBufUsed])
    }

    ghost predicate Shown()
      requires painter.Fits()
      reads this, painter.buffer
    {
      clean ==> Renders(painter.font, c, cells, painter.View())
    }

    ghost predicate Synced()
      requires |c.palette| == 16
      reads this
    {
      fgColor == Pixel(c, fgIndex) && bgColor == Pixel(c, bgIndex)
    }

    // A clean framebuffer shows the grid, and the colours are those of the palette.
    ghost predicate Valid()
      reads this, ansiBuf, painter.buffer
    {
      Fits() && ansiBufUsed <= ANSI_BUF_SIZE && Inv(c, State()) && Synced() && Shown()
    }

    method UpdateColors()
      requires |c.palette| == 16
      modifies this`fgColor, this`bgColor
      ensures Synced()
    {
      fgColor, bgColor := c.palette[fgIndex % 16], c.palette[bgIndex % 16];
    }

    constructor (painter: Painter, width: nat, height: nat, palette: seq<nat>, moves: bool,
                 warnings: Warnings)
      requires ValidFont(painter.font) && |palette| == 16
      requires painter.Fits() && width <= painter.stride && height <= painter.rows
      modifies painter.buffer
      ensures Valid() && this.painter == painter && fresh(ansiBuf)
      ensures c == SetupFor(painter, width, height, palette, moves, warnings)
      ensures State() ==
              Screen(EmptyGrid(c, Cell(QUESTION, Pixel(c, 0), Pixel(c, 0))), true, 0, 0, Colors(0xF, 0x0), Idle, [])
    {
      hide Renders, ValidFont, BlankRow, SetupFor;
      FontSizes(painter.font);
      this.painter, this.width, this.height := painter, width, height;
      c := SetupFor(painter, width, height, palette, moves, warnings);
      ansiBuf := new Byte[ANSI_BUF_SIZE](_ => 0);
      ansiBufUsed, cursorX, cursorY, fgIndex, bgIndex, writeState := 0, 0, 0, 0xF, 0x0, Idle;
      new;
      UpdateColors();
      Clear();
    }

    // clear
    method Clear()
      requires Fits()
      modifies this`cells, this`clean, painter.buffer
      ensures Shown() && clean && cells == EmptyGrid(c, Cell(QUESTION, bgColor, bgColor))
    {
      hide Renders, EmptyGrid;
      painter.FillRows(0, height, width, bgColor, 0);
      cells, clean := EmptyGrid(c, Cell(QUESTION, bgColor, bgColor)), true;
      ClearRenders(painter.font, c, bgColor, painter.View());
    }

    // newLine; the result says whether the copy panicked.
    method NewLine() returns (panicked: bool)
      requires Fits() && SizedGrid(c, cells) && (cursorY + 1 == c.rows ==> c.rows >= SCROLL_AMOUNT)
      requires Synced() && Shown() && ansiBufUsed <= ANSI_BUF_SIZE
      modifies this`cursorX, this`cursorY, this`cells, painter.buffer
      ensures Synced()
      ensures match TextScreen.NewLine(c, old(State()))
              case Next(s) => !panicked && State() == s && Shown()
              case _ => panicked
    {
      hide Renders, ScrolledPixels, Scrolled, ValidFont;
      ghost var s := State();
      cursorX := 0;
      cursorY := cursorY + 1;
      if cursorY == c.rows {
        // memcpy of the rows to be kept
        if !c.moves && c.rows - SCROLL_AMOUNT > SCROLL_AMOUNT {
          return true;
        }
        ghost var was := painter.View();
        painter.Scroll(c, width, bgColor);
        if clean {
          ScrollRenders(painter.font, c, cells, bgColor, was, painter.View());
        }
        cells := Scrolled(c, cells, Cell(QUESTION, bgColor, bgColor));
        cursorY := cursorY - SCROLL_AMOUNT;
      }
      panicked := false;
    }

    // print
    method Print(ch: Byte) returns (panicked: bool)
      requires Valid() && writeState == Idle && ch != ESCAPE && Defined(c, State(), ch)
      modifies this`cursorX, this`cursorY, this`cells, this`clean, painter.buffer
      ensures Synced() && Fits() && ansiBufUsed <= ANSI_BUF_SIZE
      ensures match TextScreen.Print(c, old(State()), ch)
              case Next(s) => !panicked && State() == s && Shown()
              case _ => panicked
    {
      hide Renders, ValidFont, CellEnd, TextScreen.NewLine, DrawnAt;
      if ch == NEWLINE {
        panicked := NewLine();
        return;
      }
      Draw(ch);
      if cursorX == c.cols {
        panicked := NewLine();
        return;
      }
      panicked := false;
    }

    // A printable character at the cursor.
    method Draw(ch: Byte)
      requires Valid() && CanDraw(c, State())
      modifies this`cursorX, this`cells, this`clean, painter.buffer
      ensures ansiBufUsed <= ANSI_BUF_SIZE && Shown() && SizedGrid(c, cells)
      ensures State() == DrawnAt(c, old(State()), Cell(GlyphOf(c, ch), fgColor, bgColor)) && cursorX == old(cursorX) + 1
    {
      hide Renders, Drawn, ValidFont, InFont, CellEnd, TextScreen.Put;
      ghost var s := State();
      var glyph := if ch >= 128 || ch > painter.font.maxGlyph then QUESTION else ch;
      GlyphInFont(painter.font, glyph);
      ghost var was := painter.View();
      ghost var inGrid := cursorX < c.cols && cursorY < c.rows;
      var cell := Cell(glyph, fgColor, bgColor);
      if inGrid {
        CellFits(cursorX, painter.font.width, c.cols);
        CellFits(cursorY, painter.font.height, c.rows);
        GridCellEnd(painter.Where(), cursorX, cursorY, painter.rows);
      }
      painter.DrawChar(cursorX, cursorY, cell);
      if inGrid && clean {
        DrawRenders(painter.font, c, cells, cell, cursorX, cursorY, was, painter.View());
      }
      cells := if inGrid then TextScreen.Put(cells, cursorX, cursorY, cell) else cells;
      clean := clean && inGrid;
      cursorX := cursorX + 1;
      assert ansiBuf[..ansiBufUsed] == s.buf;
    }

    // A parameter in its eight bytes, and NULs behind it.
    static ghost predicate Holds(number: array<Byte>, len: nat)
      reads number
    {
      number.Length == 8 && len <= 8 && forall i :: len <= i < 8 ==> number[i] == 0
    }

    // StrToInt; the first character that is no digit is inside the array.
    static method ParseInt(number: array<Byte>, ghost len: nat) returns (i: nat)
      requires Holds(number, len) && Readable(number[..len])
      ensures i == Number(number[..len])
    {
      i := 0;
      var k := 0;
      ghost var text := number[..len];
      assert text[0..] == text;
      assert len == 8 ==> exists j :: 0 <= j < 8 && !IsDigit(text[j]);
      while 48 <= number[k] <= 57
        invariant k <= len && k < 8
        invariant forall j :: 0 <= j < k ==> IsDigit(text[j])
        invariant StrToInt(text[k..], i) == Number(text)
        decreases len - k
      {
        assert number[k] == text[k] && text[k..][1..] == text[k + 1..];
        i := i * 10 + (number[k] - 48);
        k := k + 1;
      }
      assert k < len ==> text[k..][0] == number[k];
    }

    // processAnsiSgr for one attribute
    method ApplySgr(str: array<Byte>, strLen: nat)
      requires Holds(str, strLen) && Readable(str[..strLen]) && (str as object) != this
      modifies this`fgIndex, this`bgIndex
      ensures Colors(fgIndex, bgIndex) == Sgr(old(Colors(fgIndex, bgIndex)), str[..strLen])
    {
      assert str[..strLen] == [48] <==> strLen == 1 && str[0] == 48;
      if strLen == 0 || (strLen == 1 && str[0] == 48) {
        fgIndex, bgIndex := 0xF, 0x0;
        return;
      }
      var cmd := ParseInt(str, strLen);
      if 30 <= cmd <= 37 {
        fgIndex := cmd - 30;
      } else if 40 <= cmd <= 47 {
        bgIndex := cmd - 40;
      }
      if 90 <= cmd <= 97 {
        fgIndex := cmd - 90 + 8;
      } else if 100 <= cmd <= 107 {
        bgIndex := cmd - 100 + 8;
      }
    }

    // processAnsiSgr
    method ProcessSgr()
      requires Fits() && 1 <= ansiBufUsed <= ANSI_BUF_SIZE
      requires ansiBufUsed > 1 ==> SgrLoop(Colors(fgIndex, bgIndex), [], ansiBuf[..ansiBufUsed - 1]) != NoColors
      modifies this`fgIndex, this`bgIndex, this`fgColor, this`bgColor, ansiBuf
      ensures Synced()
      ensures old(ansiBufUsed) == 1 ==>
                Colors(fgIndex, bgIndex) == Colors(0xF, 0x0) && ansiBuf[..1] == old(ansiBuf[..1])
      ensures old(ansiBufUsed) > 1 ==>
                && SgrLoop(old(Colors(fgIndex, bgIndex)), [], old(ansiBuf[..ansiBufUsed - 1])) ==
                     SomeColors(Colors(fgIndex, bgIndex))
                && ansiBuf[..ansiBufUsed] == old(ansiBuf[..ansiBufUsed - 1]) + [0]
    {
      hide ValidFont;
      if ansiBufUsed == 1 {
        var none := new Byte[8](_ => 0);
        ApplySgr(none, 0);
        UpdateColors();
        return;
      }
      ghost var text := ansiBuf[..ansiBufUsed - 1];
      ansiBuf[ansiBufUsed - 1] := 0;
      assert ansiBuf[..ansiBufUsed] == text + [0];
      ScanSgr(text);
      UpdateColors();
    }

    // The scan over the text before the final byte.
    method ScanSgr(ghost text: seq<Byte>)
      requires 1 < ansiBufUsed <= ansiBuf.Length && ansiBuf[..ansiBufUsed] == text + [0] && (ansiBuf as object) != this
      requires SgrLoop(Colors(fgIndex, bgIndex), [], text) != NoColors
      modifies this`fgIndex, this`bgIndex
      ensures SgrLoop(old(Colors(fgIndex, bgIndex)), [], text) == SomeColors(Colors(fgIndex, bgIndex))
    {
      hide Sgr;
      ghost var goal := SgrLoop(Colors(fgIndex, bgIndex), [], text);
      var number := new Byte[8](_ => 0);
      var numberRead, readPtr := 0, 0;
      assert text[0..] == text && number[..0] == [];
      while true
        invariant fresh(number) && Holds(number, numberRead) && readPtr <= |text|
        invariant ansiBuf[..ansiBufUsed] == text + [0]
        invariant SgrLoop(Colors(fgIndex, bgIndex), number[..numberRead], text[readPtr..]) == goal
        decreases |text| - readPtr
      {
        assert ansiBuf[readPtr] == (text + [0])[readPtr];
        var ch := ansiBuf[readPtr];
        if ch == 0 {
          break;
        }
        assert text[readPtr..][0] == ch && text[readPtr..][1..] == text[readPtr + 1..];
        readPtr := readPtr + 1;
        if ch == 59 {
          ApplySgr(number, numberRead);
          forall i | 0 <= i < 8 {
            number[i] := 0;
          }
          numberRead := 0;
          assert number[..0] == [];
        } else {
          numberRead := Collect(number, numberRead, ch, text[readPtr..], Colors(fgIndex, bgIndex), Cursor(0, 0), true);
        }
      }
      if numberRead > 0 {
        ApplySgr(number, numberRead);
      }
    }

    // number[numberRead++] = ch
    static method Collect(number: array<Byte>, numberRead: nat, ch: Byte, ghost rest: seq<Byte>,
                          ghost colors: Colors, ghost p: Cursor, ghost isRow: bool) returns (n: nat)
      requires Holds(number, numberRead)
      requires SgrLoop(colors, number[..numberRead] + [ch], rest) != NoColors
                 || CupLoop(p, isRow, number[..numberRead] + [ch], rest) != NoCursor
      modifies number
      ensures n == numberRead + 1 && Holds(number, n) && number[..n] == old(number[..numberRead]) + [ch]
    {
      if numberRead == 8 {
        LongParameter(colors, p, isRow, number[..numberRead] + [ch], rest);
        assert false;
      }
      number[numberRead] := ch;
      n := numberRead + 1;
    }

    // One coordinate of a cursor positioning sequence.
    method MoveCursor(number: array<Byte>, numberRead: nat, isRow: bool)
      requires Holds(number, numberRead) && Readable(number[..numberRead]) && (number as object) != this
      modifies this`cursorX, this`cursorY
      ensures Cursor(cursorX, cursorY) == Moved(old(Cursor(cursorX, cursorY)), isRow, number[..numberRead])
    {
      var val := ParseInt(number, numberRead);
      var to := if val > 0 then val - 1 else 0;
      if isRow {
        cursorY := to;
      } else {
        cursorX := to;
      }
    }

    // processAnsiCup
    method ProcessCup()
      requires 1 <= ansiBufUsed <= ansiBuf.Length && (ansiBuf as object) != this
      requires CupLoop(Cursor(cursorX, cursorY), true, [], ansiBuf[..ansiBufUsed - 1]) != NoCursor
      modifies this`cursorX, this`cursorY, ansiBuf
      ensures CupLoop(old(Cursor(cursorX, cursorY)), true, [], old(ansiBuf[..ansiBufUsed - 1])) ==
                SomeCursor(Cursor(cursorX, cursorY))
      ensures ansiBuf[..ansiBufUsed] == old(ansiBuf[..ansiBufUsed - 1]) + [0]
    {
      hide Moved;
      ghost var text := ansiBuf[..ansiBufUsed - 1];
      ansiBuf[ansiBufUsed - 1] := 0;
      ghost var goal := CupLoop(Cursor(cursorX, cursorY), true, [], text);
      var isRow := true;
      var number := new Byte[8](_ => 0);
      var numberRead, readPtr := 0, 0;
      assert text[0..] == text && number[..0] == [];
      while true
        invariant fresh(number) && Holds(number, numberRead) && readPtr <= |text|
        invariant ansiBuf[..ansiBufUsed] == text + [0]
        invariant CupLoop(Cursor(cursorX, cursorY), isRow, number[..numberRead], text[readPtr..]) == goal
        decreases |text| - readPtr
      {
        assert ansiBuf[readPtr] == (text + [0])[readPtr];
        var ch := ansiBuf[readPtr];
        if ch == 0 {
          break;
        }
        assert text[readPtr..][0] == ch && text[readPtr..][1..] == text[readPtr + 1..];
        readPtr := readPtr + 1;
        if ch == 59 {
          MoveCursor(number, numberRead, isRow);
          isRow := !isRow;
          forall i | 0 <= i < 8 {
            number[i] := 0;
          }
          numberRead := 0;
          assert number[..0] == [];
        } else {
          numberRead := Collect(number, numberRead, ch, text[readPtr..], Colors(0, 0), Cursor(cursorX, cursorY), isRow);
        }
      }
      MoveCursor(number, numberRead, isRow);
    }

    // processAnsi
    method ProcessAnsi()
      requires Fits() && 1 <= ansiBufUsed <= ANSI_BUF_SIZE && Synced()
      requires TextScreen.ProcessAnsi(c, State()) != Undefined
      modifies this`cursorX, this`cursorY, this`fgIndex, this`bgIndex, this`fgColor, this`bgColor, ansiBuf
      ensures Synced() && TextScreen.ProcessAnsi(c, old(State())) == Next(State())
    {
      hide ValidFont, SgrLoop, CupLoop;
      ghost var s := State();
      assert s.buf[..|s.buf| - 1] == ansiBuf[..ansiBufUsed - 1];
      var final := ansiBuf[ansiBufUsed - 1];
      if final == 109 {
        ProcessSgr();
        assert |s.buf| == 1 ==> s.buf[..|s.buf| - 1] == [] && State().buf == s.buf;
      } else if final == 72 {
        ProcessCup();
      } else {
        // Kernel::Console::Warning, whose text goes elsewhere if it goes anywhere
        WarnExact(c, s);
      }
    }

    // write, for one character; the result says whether the kernel panicked.
    method Write(ch: Byte) returns (panicked: bool)
      requires Valid()
      requires Defined(c, State(), ch)
      modifies this, ansiBuf, painter.buffer
      ensures ansiBufUsed <= ansiBuf.Length
      ensures match TextScreen.Write(c, old(State()), ch)
              case Next(s) => !panicked && State() == s && Valid()
              case _ => panicked
    {
      hide Renders, ValidFont, TextScreen.ProcessAnsi, TextScreen.Print, SizedGrid;
      ghost var s := State();
      WriteKeeps(c, s, ch);
      UndefinedExact(c, s, ch);
      panicked := false;
      match writeState {
        case Idle =>
          if ch != ESCAPE {
            panicked := Print(ch);
          } else {
            writeState := AnsiEscapeStart;
          }
        case AnsiEscapeStart =>
          if ch == 91 {
            writeState := AnsiReadingCsi;
            ansiBufUsed := 0;
            forall i | 0 <= i < ANSI_BUF_SIZE {
              ansiBuf[i] := 0;
            }
          } else {
            writeState := Idle;
          }
        case AnsiReadingCsi =>
          ansiBuf[ansiBufUsed] := ch;
          ansiBufUsed := ansiBufUsed + 1;
          assert State() == s.(buf := s.buf + [ch]);
          if 0x40 <= ch <= 0x7E {
            ProcessAnsi();
            writeState := Idle;
          } else if ansiBufUsed == ANSI_BUF_SIZE {
            writeState := Idle;
          }
      }
    }
  }

  // write, for a string: while every character finds what it needs, the console is the terminal after the
  // whole string, or the kernel panicked in a scroll.
  method WriteAll(console: Console, str: seq<Byte>) returns (panicked: bool)
    requires console.Valid() && AllDefined(console.c, console.State(), str)
    modifies console, console.ansiBuf, console.painter.buffer
    ensures console.ansiBufUsed <= console.ansiBuf.Length
    ensures match WriteText(console.c, old(console.State()), str)
            case Next(end) => !panicked && console.Valid() && console.State() == end
            case _ => panicked
  {
    hide Renders, ValidFont, TextScreen.Write, Defined;
    ghost var goal := WriteText(console.c, console.State(), str);
    panicked := false;
    var i := 0;
    assert str[0..] == str;
    while i < |str|
      invariant i <= |str| && console.Valid()
      invariant AllDefined(console.c, console.State(), str[i..])
      invariant WriteText(console.c, console.State(), str[i..]) == goal
    {
      ghost var s := console.State();
      assert str[i..][0] == str[i] && str[i..][1..] == str[i + 1..];
      panicked := console.Write(str[i]);
      if panicked {
        return;
      }
      i := i + 1;
    }
    panicked := false;
  }

  // The console's size in characters.
  function SetupFor(painter: Painter, width: nat, height: nat, palette: seq<nat>, moves: bool, warnings: Warnings)
    : (c: Setup)
    requires painter.font.width > 0 && painter.font.height > 0 && |palette| == 16
    ensures ValidSetup(c) && c.maxGlyph == painter.font.maxGlyph && c.place == painter.Where()
    ensures c.palette == palette && c.moves == moves && c.warnings == warnings
    ensures var f := painter.font;
            c.cols * f.width <= width < (c.cols + 1) * f.width && c.rows * f.height <= height < (c.rows + 1) * f.height
  {
    var f := painter.font;
    DivEquation(width, f.width);
    DivEquation(height, f.height);
    Setup(width / f.width, height / f.height, f.maxGlyph, palette, moves, warnings, painter.Where())
  }

  lemma FontSizes(f: Font)
    requires ValidFont(f)
    ensures f.width > 0 && f.height > 0
  {
  }

  lemma GlyphInFont(f: Font, glyph: nat)
    requires ValidFont(f) && (glyph == QUESTION || (glyph < 128 && glyph <= f.maxGlyph))
    ensures f.width > 0 && f.height > 0 && InFont(f, glyph)
  {
  }

  lemma CellFits(k: nat, size: nat, n: nat)
    requires k < n
    ensures (k + 1) * size <= n * size
  {
  }
}
