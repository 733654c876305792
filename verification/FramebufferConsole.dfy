// The pixels of the console: what a grid of cells looks like on the framebuffer, and what drawing a
// character and scrolling do to it. Row y, column x of the framebuffer is pixel [y][x]; rows are a stride
// long.
module FramebufferConsole {
  import opened Division
  import opened ByteOrder
  import opened Words
  import opened TextScreen
  import MemoryMove

  // A font of 1-bit glyphs, as its descriptor gives it.
  datatype Font = Font(width: nat, height: nat, stride: nat, maxGlyph: nat, data: seq<Byte>)

  // Bytes of font data drawChar steps over in one row of a glyph, and before pixel x of a row.
  function RowBytes(f: Font): nat { (f.width + 7) / 8 }

  function Steps(x: nat): nat { if x == 0 then 0 else (x - 1) / 8 }

  function DataIndex(f: Font, glyph: nat, x: nat, y: nat): nat {
    glyph * f.stride + y * RowBytes(f) + Steps(x)
  }

  // All of a glyph's rows are in the font's data.
  predicate InFont(f: Font, glyph: nat) {
    glyph * f.stride + f.height * RowBytes(f) <= |f.data|
  }

  ghost predicate ValidFont(f: Font) {
    f.width > 0 && f.height > 0 && InFont(f, QUESTION) && forall b: nat :: b < 128 && b <= f.maxGlyph ==> InFont(f, b)
  }

  lemma IndexInData(f: Font, glyph: nat, x: nat, y: nat)
    requires InFont(f, glyph) && x < f.width && y < f.height
    ensures DataIndex(f, glyph, x, y) < |f.data|
  {
    MulMonotone(RowBytes(f), y + 1, f.height);
    assert RowBytes(f) * (y + 1) == RowBytes(f) * y + RowBytes(f);
    assert Steps(x) < RowBytes(f);
  }

  predicate Lit(f: Font, glyph: nat, x: nat, y: nat) {
    DataIndex(f, glyph, x, y) < |f.data| && Bit(f.data[DataIndex(f, glyph, x, y)], x % 8)
  }

  // The value of pixel (x, y) of a cell.
  function Shade(f: Font, cell: Cell, x: nat, y: nat): nat {
    if Lit(f, cell.glyph, x, y) then cell.fg else cell.bg
  }

  // What pixel [y][x] of the screen should be.
  function PixelOf(f: Font, cells: Grid, y: nat, x: nat): nat
    requires f.width > 0 && f.height > 0
  {
    var row, col := y / f.height, x / f.width;
    if row < |cells| && col < |cells[row]| then Shade(f, cells[row][col], x % f.width, y % f.height) else 0
  }

  lemma CellOfPixel(p: nat, size: nat, n: nat)
    requires size > 0 && p < n * size
    ensures p / size < n && p % size < size
  {
    DivEquation(p, size);
    if p / size >= n {
      MulMonotone(size, n, p / size);
    }
  }

  // Is p one of the pixels of the k-th cell in its direction?
  predicate InSpan(p: nat, size: nat, k: nat) { k * size <= p < (k + 1) * size }

  lemma SpanIsQuotient(p: nat, size: nat, k: nat)
    requires size > 0
    ensures InSpan(p, size, k) <==> p / size == k
    ensures InSpan(p, size, k) ==> p % size == p - k * size < size
  {
    DivEquation(p, size);
    var q := p / size;
    assert (k + 1) * size == k * size + size;
    if k * size <= p < (k + 1) * size {
      DivUnique(p, size, k, p - k * size);
    }
    if q == k {
      assert p == size * k + p % size;
    }
  }

  type Pixels = seq<seq<nat>>

  // ----- the framebuffer's memory -----

  function At(s: seq<nat>, k: int): nat {
    if 0 <= k < |s| then s[k] else 0
  }

  function RowOf(s: seq<nat>, stride: nat, y: nat): (r: seq<nat>)
    ensures |r| == stride && forall x :: 0 <= x < stride ==> r[x] == At(s, stride * y + x)
  {
    seq<nat>(stride, x requires 0 <= x < stride => At(s, stride * y + x))
  }

  // Pixels one after the other, read as rows a stride apart.
  ghost function AsRows(s: seq<nat>, stride: nat, rows: nat): (p: Pixels)
    ensures |p| == rows && forall y :: 0 <= y < rows ==> |p[y]| == stride
  {
    seq(rows, y requires 0 <= y < rows => RowOf(s, stride, y))
  }

  lemma RowEnd(stride: nat, y: nat, rows: nat)
    requires y < rows
    ensures 0 <= stride * y <= stride * y + stride <= stride * rows
  {
    MulMonotone(stride, y + 1, rows);
    assert stride * (y + 1) == stride * y + stride;
  }

  lemma RowsAt(s: seq<nat>, stride: nat, rows: nat, y: nat, x: nat)
    requires stride * rows <= |s| && y < rows && x < stride
    ensures 0 <= stride * y + x < |s| && AsRows(s, stride, rows)[y][x] == s[stride * y + x]
  {
    RowEnd(stride, y, rows);
  }

  // Different pixels have different places.
  lemma PlacesDiffer(stride: nat, y: nat, x: nat, y': nat, x': nat)
    requires x < stride && x' < stride
    ensures stride * y + x == stride * y' + x' <==> y == y' && x == x'
  {
    DivUnique(stride * y + x, stride, y, x);
    DivUnique(stride * y' + x', stride, y', x');
  }

  lemma PixelWritten(s: seq<nat>, stride: nat, rows: nat, y: nat, x: nat, v: nat)
    requires stride * rows <= |s| && y < rows && x < stride
    ensures 0 <= stride * y + x < |s|
    ensures var was, now := AsRows(s, stride, rows), AsRows(s[stride * y + x := v], stride, rows);
            forall py, px :: 0 <= py < rows && 0 <= px < stride ==>
              now[py][px] == if py == y && px == x then v else was[py][px]
  {
    RowsAt(s, stride, rows, y, x);
    var s' := s[stride * y + x := v];
    var was, now := AsRows(s, stride, rows), AsRows(s', stride, rows);
    forall py, px | 0 <= py < rows && 0 <= px < stride
      ensures now[py][px] == if py == y && px == x then v else was[py][px]
    {
      hide AsRows;
      RowsAt(s, stride, rows, py, px);
      RowsAt(s', stride, rows, py, px);
      PlacesDiffer(stride, py, px, y, x);
    }
  }

  // Moving a block to the front moves its rows.
  lemma BlockMoved(s: seq<nat>, s': seq<nat>, stride: nat, rows: nat, n: nat, delta: nat, block: nat, off: nat)
    requires n + delta <= rows && stride * rows <= |s| == |s'| && block == stride * n && off == stride * delta
    requires block + off <= |s| && forall k :: 0 <= k < |s| ==> s'[k] == if k < block then s[k + off] else s[k]
    ensures var was, now := AsRows(s, stride, rows), AsRows(s', stride, rows);
            forall py, px :: 0 <= py < rows && 0 <= px < stride ==>
              now[py][px] == if py < n then was[py + delta][px] else was[py][px]
  {
    var was, now := AsRows(s, stride, rows), AsRows(s', stride, rows);
    forall py, px | 0 <= py < rows && 0 <= px < stride
      ensures now[py][px] == if py < n then was[py + delta][px] else was[py][px]
    {
      hide AsRows;
      RowsAt(s', stride, rows, py, px);
      RowsAt(s, stride, rows, py, px);
      var k := stride * py + px;
      assert s'[k] == if k < block then s[k + off] else s[k];
      InBlock(stride, n, delta, py, px);
      if py < n {
        RowsAt(s, stride, rows, py + delta, px);
      }
    }
  }

  // A row of the block, and where it comes from.
  lemma InBlock(stride: nat, n: nat, delta: nat, y: nat, x: nat)
    requires x < stride
    ensures stride * y + x < stride * n <==> y < n
    ensures stride * (y + delta) + x == stride * y + x + stride * delta
  {
    if y < n {
      RowEnd(stride, y, n);
    } else {
      MulMonotone(stride, n, y);
    }
    assert stride * (y + delta) == stride * y + stride * delta;
  }

  // The text area shows the cells.
  ghost predicate Renders(f: Font, c: Setup, cells: Grid, pixels: Pixels) {
    && f.width > 0 && f.height > 0
    && c.rows * f.height <= |pixels| && (forall y :: 0 <= y < |pixels| ==> c.cols * f.width <= |pixels[y]|)
    && forall y: nat, x: nat :: y < c.rows * f.height && x < c.cols * f.width ==>
         pixels[y][x] == PixelOf(f, cells, y, x)
  }

  // What is to be seen: pixel (x, y) of the character at a row and column has the foreground colour where its bit of
  // the glyph is set, else the background colour. It is bit x % 8; rows take whole bytes, and the step to the next byte
  // comes behind columns 8, 16 and so on, so in wide fonts column 8 still shows a bit of the first byte.
  lemma PixelShown(f: Font, c: Setup, cells: Grid, pixels: Pixels, row: nat, col: nat, x: nat, y: nat)
    requires Renders(f, c, cells, pixels) && SizedGrid(c, cells) && row < c.rows && col < c.cols
    requires x < f.width && y < f.height && InFont(f, cells[row][col].glyph)
    ensures var cell := cells[row][col];
            var k := cell.glyph * f.stride + y * ((f.width + 7) / 8) + if x <= 8 then 0 else (x - 1) / 8;
            Shows(pixels, row * f.height + y, col * f.width + x, if Bit(At(f.data, k), x % 8) then cell.fg else cell.bg)
  {
    var py, px := row * f.height + y, col * f.width + x;
    DivUnique(py, f.height, row, y);
    DivUnique(px, f.width, col, x);
    CellStart(row, y, f.height, c.rows);
    CellStart(col, x, f.width, c.cols);
    var cell := cells[row][col];
    hide Lit, Bit, InFont, DataIndex;
    assert pixels[py][px] == Shade(f, cell, x, y);
    ShadeIs(f, cell, x, y);
  }

  predicate Shows(pixels: Pixels, y: nat, x: nat, color: nat) {
    y < |pixels| && x < |pixels[y]| && pixels[y][x] == color
  }

  lemma CellStart(k: nat, x: nat, size: nat, n: nat)
    requires k < n && x < size
    ensures k * size + x < n * size
  {
    MulMonotone(size, k + 1, n);
    assert size * (k + 1) == k * size + size;
  }

  lemma ShadeIs(f: Font, cell: Cell, x: nat, y: nat)
    requires InFont(f, cell.glyph) && x < f.width && y < f.height
    ensures var k := cell.glyph * f.stride + y * ((f.width + 7) / 8) + if x <= 8 then 0 else (x - 1) / 8;
            Shade(f, cell, x, y) == if Bit(At(f.data, k), x % 8) then cell.fg else cell.bg
  {
    hide Bit, InFont;
    IndexInData(f, cell.glyph, x, y);
    var k := cell.glyph * f.stride + y * ((f.width + 7) / 8) + if x <= 8 then 0 else (x - 1) / 8;
    assert k == DataIndex(f, cell.glyph, x, y);
  }

  // ----- drawing one character -----

  ghost predicate SameSize(was: Pixels, now: Pixels) {
    |now| == |was| && forall y :: 0 <= y < |was| ==> |now[y]| == |was[y]|
  }

  function DrawnPixel(f: Font, cell: Cell, x: nat, y: nat, was: nat, py: nat, px: nat): nat {
    if InSpan(py, f.height, y) && InSpan(px, f.width, x) then Shade(f, cell, px - x * f.width, py - y * f.height)
      else was
  }

  // Pixels with the cell at column x, row y drawn over.
  ghost predicate Drawn(f: Font, cell: Cell, x: nat, y: nat, was: Pixels, now: Pixels) {
    && SameSize(was, now)
    && forall py: nat, px: nat :: py < |was| && px < |was[py]| ==>
         now[py][px] == DrawnPixel(f, cell, x, y, was[py][px], py, px)
  }

  lemma DrawnCell(f: Font, cells: Grid, cell: Cell, x: nat, y: nat, py: nat, px: nat)
    requires f.width > 0 && f.height > 0 && y < |cells| && x < |cells[y]|
    ensures DrawnPixel(f, cell, x, y, PixelOf(f, cells, py, px), py, px) == PixelOf(f, Put(cells, x, y, cell), py, px)
  {
    hide Shade, InSpan;
    SpanIsQuotient(py, f.height, y);
    SpanIsQuotient(px, f.width, x);
  }

  // Drawing a character's pixels shows the grid with its cell put in.
  lemma DrawRenders(f: Font, c: Setup, cells: Grid, cell: Cell, x: nat, y: nat, was: Pixels, now: Pixels)
    requires Renders(f, c, cells, was) && y < |cells| && x < |cells[y]|
    requires Drawn(f, cell, x, y, was, now)
    ensures Renders(f, c, Put(cells, x, y, cell), now)
  {
    hide PixelOf, DrawnPixel, Put;
    var cells' := Put(cells, x, y, cell);
    forall py: nat, px: nat | py < c.rows * f.height && px < c.cols * f.width
      ensures now[py][px] == PixelOf(f, cells', py, px)
    {
      DrawnCell(f, cells, cell, x, y, py, px);
    }
  }

  // ----- scrolling -----

  // The pixel row the scroll moves to row y.
  function Below(f: Font, y: nat): nat { y + SCROLL_AMOUNT * f.height }

  function MovedRows(f: Font, c: Setup): nat
    requires c.rows >= SCROLL_AMOUNT
  {
    (c.rows - SCROLL_AMOUNT) * f.height
  }

  // Pixels after the rows of text have been moved up by five and the last five filled with bg.
  ghost predicate ScrolledPixels(f: Font, c: Setup, bg: nat, was: Pixels, now: Pixels)
    requires c.rows >= SCROLL_AMOUNT
  {
    && SameSize(was, now)
    && (forall y: nat, x: nat ::
          y < MovedRows(f, c) && Below(f, y) < |was| && x < |now[y]| && x < |was[Below(f, y)]| ==>
          now[y][x] == was[Below(f, y)][x])
    && (forall y: nat, x: nat ::
          MovedRows(f, c) <= y < |now| && y < c.rows * f.height && x < |now[y]| && x < c.cols * f.width ==>
          now[y][x] == bg)
  }

  // Pixel rows with the same place in equal text rows look the same.
  lemma SameRow(f: Font, a: Grid, b: Grid, y: nat, z: nat, x: nat)
    requires f.width > 0 && f.height > 0 && y / f.height < |a| && z / f.height < |b|
    requires a[y / f.height] == b[z / f.height] && y % f.height == z % f.height
    ensures PixelOf(f, a, y, x) == PixelOf(f, b, z, x)
  {
  }

  // A row of blank cells shows the background only.
  lemma BlankPixel(f: Font, c: Setup, a: Grid, bg: nat, y: nat, x: nat)
    requires f.width > 0 && f.height > 0 && x < c.cols * f.width
    requires y / f.height < |a| && a[y / f.height] == BlankRow(c, Cell(QUESTION, bg, bg))
    ensures PixelOf(f, a, y, x) == bg
  {
    hide Lit;
    CellOfPixel(x, f.width, c.cols);
  }

  lemma ScrolledRow(c: Setup, cells: Grid, cell: Cell, k: nat)
    requires |cells| == c.rows >= SCROLL_AMOUNT && k < c.rows
    ensures Scrolled(c, cells, cell)[k] == if k < c.rows - SCROLL_AMOUNT then cells[k + SCROLL_AMOUNT]
              else BlankRow(c, cell)
  {
  }

  // A pixel row of a moved text row comes from the same row of the text five further down.
  lemma ScrollPixel(f: Font, c: Setup, y: nat)
    requires f.height > 0 && c.rows >= SCROLL_AMOUNT && y < c.rows * f.height
    ensures y / f.height < c.rows && (y < MovedRows(f, c) <==> y / f.height < c.rows - SCROLL_AMOUNT)
    ensures y < MovedRows(f, c) ==>
              Below(f, y) < c.rows * f.height && Below(f, y) / f.height == y / f.height + SCROLL_AMOUNT
                  && Below(f, y) % f.height == y % f.height
  {
    var h, k := f.height, y / f.height;
    DivEquation(y, h);
    CellOfPixel(y, h, c.rows);
    var top := c.rows - SCROLL_AMOUNT;
    if k < top {
      MulMonotone(h, k + 1, top);
      assert h * (k + 1) == h * k + h;
      assert c.rows * h == top * h + SCROLL_AMOUNT * h;
      assert y + SCROLL_AMOUNT * h == h * (k + SCROLL_AMOUNT) + y % h;
      DivUnique(y + SCROLL_AMOUNT * h, h, k + SCROLL_AMOUNT, y % h);
    } else {
      MulMonotone(h, top, k);
    }
  }

  // Moving the pixels shows the grid scrolled.
  lemma ScrollRenders(f: Font, c: Setup, cells: Grid, bg: nat, was: Pixels, now: Pixels)
    requires Renders(f, c, cells, was) && |cells| == c.rows >= SCROLL_AMOUNT
    requires ScrolledPixels(f, c, bg, was, now)
    ensures Renders(f, c, Scrolled(c, cells, Cell(QUESTION, bg, bg)), now)
  {
    hide PixelOf, Scrolled, MovedRows, Below;
    var blank := Cell(QUESTION, bg, bg);
    var cells' := Scrolled(c, cells, blank);
    forall y: nat, x: nat | y < c.rows * f.height && x < c.cols * f.width
      ensures now[y][x] == PixelOf(f, cells', y, x)
    {
      ScrollPixel(f, c, y);
      ScrolledRow(c, cells, blank, y / f.height);
      if y < MovedRows(f, c) {
        SameRow(f, cells', cells, y, Below(f, y), x);
        assert now[y][x] == was[Below(f, y)][x];
      } else {
        BlankPixel(f, c, cells', bg, y, x);
      }
    }
  }

  // Clearing the whole framebuffer shows an empty grid.
  lemma ClearRenders(f: Font, c: Setup, bg: nat, now: Pixels)
    requires f.width > 0 && f.height > 0
    requires c.rows * f.height <= |now| && (forall y :: 0 <= y < |now| ==> c.cols * f.width <= |now[y]|)
    requires forall y: nat, x: nat :: y < |now| && y < c.rows * f.height && x < |now[y]| && x < c.cols * f.width ==>
               now[y][x] == bg
    ensures Renders(f, c, EmptyGrid(c, Cell(QUESTION, bg, bg)), now)
  {
    hide PixelOf, BlankRow;
    var cells := EmptyGrid(c, Cell(QUESTION, bg, bg));
    forall y: nat, x: nat | y < c.rows * f.height && x < c.cols * f.width
      ensures now[y][x] == PixelOf(f, cells, y, x)
    {
      CellOfPixel(y, f.height, c.rows);
      BlankPixel(f, c, cells, bg, y, x);
    }
  }

  // In bytes, the block a scroll copies and the place it goes to overlap exactly when there are more than ten
  // rows: then the kernel's memcpy panics.
  lemma ScrollCopyOverlaps(f: Font, c: Setup, stride: nat)
    requires f.height > 0 && stride > 0 && c.rows >= SCROLL_AMOUNT
    ensures var yOff, toMove := stride * (SCROLL_AMOUNT * f.height), stride * ((c.rows - SCROLL_AMOUNT) * f.height);
            (toMove > 0 && MemoryMove.Overlapping(0, yOff, toMove)) <==> ScrollOverlaps(c)
  {
    var h, k: nat := f.height, c.rows - SCROLL_AMOUNT;
    MulAtLeast(stride, SCROLL_AMOUNT * h);
    if k > SCROLL_AMOUNT {
      MulMonotone(h, SCROLL_AMOUNT + 1, k);
      MulMonotone(stride, SCROLL_AMOUNT * h + 1, k * h);
      assert stride * (SCROLL_AMOUNT * h + 1) == stride * (SCROLL_AMOUNT * h) + stride;
    } else {
      MulMonotone(h, k, SCROLL_AMOUNT);
      MulMonotone(stride, k * h, SCROLL_AMOUNT * h);
    }
  }
}
