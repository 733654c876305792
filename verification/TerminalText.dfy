// What whole escape sequences do on the console, said without its helpers: the colours a selection of graphic
// rendition leaves for the next character, where a positioning sequence puts it, and how the grid moves up.
module TerminalText {
  import opened ByteOrder
  import opened TextScreen
  import W = WrittenNumbers

  // ----- parameters -----

  // The text of one parameter: digits, and what follows them.
  datatype Parameter = Parameter(chars: seq<Byte>, digits: seq<nat>, tail: seq<Byte>)

  function TextOf(p: Parameter): seq<Byte> { p.chars + p.tail }

  function NumberOf(p: Parameter): nat { W.Number(p.digits, 10) }

  // A byte that neither ends a parameter nor a sequence.
  predicate Inside(b: Byte) { b != 0 && b != ';' as int && !(0x40 <= b <= 0x7E) }

  // At most seven characters, and the digits are the decimal ones it starts with.
  predicate IsParameter(p: Parameter) {
    && W.Spells(p.chars, p.digits, 10)
    && (p.tail != [] ==> forall d: nat :: d < 10 ==> !W.Denotes(p.tail[0], d))
    && |TextOf(p)| <= 7 && forall i :: 0 <= i < |TextOf(p)| ==> Inside(TextOf(p)[i])
  }

  lemma DigitIs(b: Byte)
    ensures IsDigit(b) <==> exists d: nat :: d < 10 && W.Denotes(b, d)
    ensures forall d: nat :: d < 10 && W.Denotes(b, d) ==> b - 48 == d
  {
    if IsDigit(b) {
      assert W.Denotes(b, b - 48);
    }
  }

  lemma DigitsAre(chars: seq<Byte>, digits: seq<nat>)
    requires W.Spells(chars, digits, 10)
    ensures |chars| == |digits| && forall i :: 0 <= i < |chars| ==> IsDigit(chars[i]) && chars[i] - 48 == digits[i]
  {
    forall i | 0 <= i < |chars|
      ensures IsDigit(chars[i]) && chars[i] - 48 == digits[i]
    {
      DigitIs(chars[i]);
    }
  }

  // The number the console reads, from the digits so far and the rest of them.
  lemma {:induction false} StrToIntIs(done: seq<nat>, chars: seq<Byte>, digits: seq<nat>, tail: seq<Byte>)
    requires |chars| == |digits|
    requires forall i :: 0 <= i < |chars| ==> IsDigit(chars[i]) && chars[i] - 48 == digits[i]
    requires tail != [] ==> !IsDigit(tail[0])
    ensures StrToInt(chars + tail, W.Number(done, 10)) == W.Number(done + digits, 10)
    decreases |chars|
  {
    var s := chars + tail;
    if chars == [] {
      assert s == tail && done + digits == done;
      NoDigit(tail, W.Number(done, 10));
    } else {
      assert s[0] == chars[0] && s[1..] == chars[1..] + tail;
      NextDigit(s, W.Number(done, 10));
      assert (done + [digits[0]])[..|done|] == done;
      StrToIntIs(done + [digits[0]], chars[1..], digits[1..], tail);
      assert done + [digits[0]] + digits[1..] == done + digits;
    }
  }

  lemma NumberIs(p: Parameter)
    requires IsParameter(p)
    ensures Number(TextOf(p)) == NumberOf(p)
  {
    hide Inside;
    DigitsAre(p.chars, p.digits);
    if p.tail != [] {
      DigitIs(p.tail[0]);
    }
    assert [] + p.digits == p.digits;
    StrToIntIs([], p.chars, p.digits, p.tail);
  }

  // ----- one attribute -----

  predicate IsReset(text: seq<Byte>) { text == [] || text == ['0' as int] }

  // Thirty and forty something set foreground and background to the first eight colours, ninety and a hundred and
  // something to the second eight; nothing and a single zero go back to white on black; all others change nothing.
  lemma AttributeColours(colors: Colors, p: Parameter, k: nat)
    requires IsParameter(p) && k < 8
    ensures var n, after := NumberOf(p), Sgr(colors, TextOf(p));
            if IsReset(TextOf(p)) then after.fg == 15 && after.bg == 0
            else
              && (n == 30 + k ==> after.fg == k && after.bg == colors.bg)
              && (n == 90 + k ==> after.fg == k + 8 && after.bg == colors.bg)
              && (n == 40 + k ==> after.bg == k && after.fg == colors.fg)
              && (n == 100 + k ==> after.bg == k + 8 && after.fg == colors.fg)
              && (n < 30 || n == 38 || n == 39 || 48 <= n < 90 || n == 98 || n == 99 || n > 107 ==> after == colors)
  {
    hide StrToInt;
    NumberIs(p);
  }

  // ----- several attributes -----

  // The colours an attribute leaves.
  function Coloured(colors: Colors, p: Parameter): Colors {
    var n := NumberOf(p);
    if IsReset(TextOf(p)) then Colors(15, 0)
    else if 30 <= n < 38 then Colors(n - 30, colors.bg)
    else if 90 <= n < 98 then Colors(n - 82, colors.bg)
    else if 40 <= n < 48 then Colors(colors.fg, n - 40)
    else if 100 <= n < 108 then Colors(colors.fg, n - 92)
    else colors
  }

  function AllColoured(colors: Colors, ps: seq<Parameter>): Colors
    decreases |ps|
  {
    if ps == [] then colors else AllColoured(Coloured(colors, ps[0]), ps[1..])
  }

  // Parameters with semicolons between them.
  function Joined(ps: seq<Parameter>): seq<Byte>
    requires ps != []
    decreases |ps|
  {
    if |ps| == 1 then TextOf(ps[0]) else TextOf(ps[0]) + [';' as int] + Joined(ps[1..])
  }

  ghost predicate AreParameters(ps: seq<Parameter>) {
    ps != [] && forall i :: 0 <= i < |ps| ==> IsParameter(ps[i])
  }

  function Texts(ps: seq<Parameter>): (r: seq<seq<Byte>>)
    ensures |r| == |ps| && forall i :: 0 <= i < |r| ==> r[i] == TextOf(ps[i])
  {
    seq(|ps|, i requires 0 <= i < |ps| => TextOf(ps[i]))
  }

  lemma {:induction false} NoNul(s: seq<Byte>)
    requires forall i :: 0 <= i < |s| ==> s[i] != 0
    ensures UntilNul(s) == s
  {
    if s == [] {
    } else {
      NoNul(s[1..]);
    }
  }

  lemma {:induction false} JoinedBytes(ps: seq<Parameter>)
    requires AreParameters(ps)
    ensures forall i :: 0 <= i < |Joined(ps)| ==> Joined(ps)[i] != 0 && !(0x40 <= Joined(ps)[i] <= 0x7E)
    decreases |ps|
  {
    hide W.Spells, W.Denotes;
    if |ps| == 1 {
    } else {
      JoinedBytes(ps[1..]);
    }
  }

  // One more parameter in front of the text.
  lemma {:induction false} ParamsOf(first: seq<Byte>, text: seq<Byte>, rest: seq<Byte>)
    requires forall i :: 0 <= i < |text| ==> text[i] != ';' as int
    ensures Params(first, text) == [first + text]
    ensures Params(first, text + [';' as int] + rest) == [first + text] + Params([], rest)
    decreases |text|
  {
    var all := text + [';' as int] + rest;
    if text == [] {
      assert first + text == first && all[0] == 59 && all[1..] == rest;
    } else {
      assert all[0] == text[0] && all[1..] == text[1..] + [';' as int] + rest;
      ParamsOf(first + [text[0]], text[1..], rest);
      assert first + [text[0]] + text[1..] == first + text;
    }
  }

  lemma {:induction false} ParamsJoined(ps: seq<Parameter>)
    requires AreParameters(ps)
    ensures Params([], Joined(ps)) == Texts(ps)
    decreases |ps|
  {
    hide W.Spells, W.Denotes;
    assert IsParameter(ps[0]);
    var text := TextOf(ps[0]);
    assert [] + text == text;
    if |ps| == 1 {
      ParamsOf([], text, []);
    } else {
      ParamsOf([], text, Joined(ps[1..]));
      ParamsJoined(ps[1..]);
      assert Texts(ps) == [text] + Texts(ps[1..]);
    }
  }

  // An empty last attribute behind others counts for nothing.
  function Counted(ps: seq<Parameter>): seq<Parameter> {
    if |ps| > 1 && TextOf(ps[|ps| - 1]) == [] then ps[..|ps| - 1] else ps
  }

  lemma ColouredIs(colors: Colors, p: Parameter)
    requires IsParameter(p)
    ensures Sgr(colors, TextOf(p)) == Coloured(colors, p)
  {
    hide StrToInt;
    NumberIs(p);
  }

  lemma {:induction false} SgrAllIs(colors: Colors, ps: seq<Parameter>)
    requires AreParameters(ps) && (|ps| == 1 ==> TextOf(ps[0]) != [])
    ensures SgrAll(colors, Texts(ps)) == AllColoured(colors, Counted(ps))
    decreases |ps|
  {
    hide Sgr, Coloured, IsParameter, W.Spells, W.Denotes;
    ColouredIs(colors, ps[0]);
    var next := Coloured(colors, ps[0]);
    assert Texts(ps)[1..] == Texts(ps[1..]);
    if |ps| == 1 {
      assert SgrAll(next, []) == next && AllColoured(next, []) == next;
    } else if |ps| == 2 && TextOf(ps[1]) == [] {
      assert Counted(ps) == [ps[0]];
      assert SgrAll(next, Texts(ps)[1..]) == next && AllColoured(next, []) == next;
    } else {
      SgrAllIs(next, ps[1..]);
      assert Counted(ps)[1..] == Counted(ps[1..]) && Counted(ps)[0] == ps[0];
    }
  }

  // ----- whole sequences -----

  lemma {:induction false} WriteConcat(c: Setup, s: Screen, a: seq<Byte>, b: seq<Byte>)
    requires ValidSetup(c) && SizedGrid(c, s.cells)
    ensures WriteText(c, s, a).Next? ==> SizedGrid(c, WriteText(c, s, a).s.cells)
    ensures WriteText(c, s, a + b) ==
            var r := WriteText(c, s, a);
            if r.Next? then WriteText(c, r.s, b) else r
    decreases |a|
  {
    hide Write, SizedGrid;
    if a == [] {
      assert a + b == b;
    } else {
      assert (a + b)[1..] == a[1..] + b;
      var r := Write(c, s, a[0]);
      if r.Next? {
        WriteConcat(c, r.s, a[1..], b);
      }
    }
  }

  // ESC and any other character but [ are swallowed.
  lemma SwallowsOthers(c: Setup, s: Screen, ch: Byte)
    requires ValidSetup(c) && SizedGrid(c, s.cells) && s.state == Idle && ch != '[' as int
    ensures WriteText(c, s, [27, ch]) == Next(s)
  {
    hide SizedGrid;
    var text: seq<Byte> := [27, ch];
    var t := s.(state := AnsiEscapeStart);
    WriteIdle(c, s, 27);
    WriteStart(c, t, ch);
    assert text[1..] == [ch] && text[1..][1..] == [];
    assert t.(state := Idle) == s;
    assert WriteText(c, s, []) == Next(s);
    assert WriteText(c, t, text[1..]) == Next(s);
  }

  // What stands between ESC [ and the final byte ends up in the buffer.
  lemma {:induction false} ReadInside(c: Setup, s: Screen, text: seq<Byte>)
    requires ValidSetup(c) && SizedGrid(c, s.cells) && s.state == AnsiReadingCsi && |s.buf| + |text| < 32
    requires forall i :: 0 <= i < |text| ==> !(0x40 <= text[i] <= 0x7E)
    ensures WriteText(c, s, text) == Next(s.(buf := s.buf + text))
    decreases |text|
  {
    if text == [] {
      assert s.buf + text == s.buf;
    } else {
      ReadInside(c, s.(buf := s.buf + [text[0]]), text[1..]);
      assert s.buf + [text[0]] + text[1..] == s.buf + text;
    }
  }

  // ESC [ text, from the idle state.
  lemma ReadSequence(c: Setup, s: Screen, text: seq<Byte>)
    requires ValidSetup(c) && SizedGrid(c, s.cells) && s.state == Idle && |text| < 32
    requires forall i :: 0 <= i < |text| ==> !(0x40 <= text[i] <= 0x7E)
    ensures WriteText(c, s, [27, '[' as int] + text) == Next(s.(state := AnsiReadingCsi, buf := text))
  {
    var t := s.(state := AnsiReadingCsi, buf := []);
    OpenSequence(c, s);
    WriteConcat(c, s, [27, '[' as int], text);
    ReadInside(c, t, text);
    assert [] + text == text;
  }

  lemma OpenSequence(c: Setup, s: Screen)
    requires ValidSetup(c) && SizedGrid(c, s.cells) && s.state == Idle
    ensures WriteText(c, s, [27, '[' as int]) == Next(s.(state := AnsiReadingCsi, buf := []))
  {
    hide SizedGrid;
    var text: seq<Byte> := [27, '[' as int];
    var t := s.(state := AnsiEscapeStart);
    WriteIdle(c, s, 27);
    WriteStart(c, t, '[' as int);
    var u := t.(state := AnsiReadingCsi, buf := []);
    assert text[1..] == ['[' as int] && text[1..][1..] == [];
    assert WriteText(c, u, []) == Next(u);
    assert WriteText(c, t, text[1..]) == Next(u);
  }

  lemma ReadableParameters(ps: seq<Parameter>)
    requires AreParameters(ps)
    ensures AllReadable(Texts(ps))
  {
    hide W.Spells, W.Denotes;
  }

  // ESC [ attributes m leaves the colours of its attributes, in order.
  lemma SelectsColours(c: Setup, s: Screen, ps: seq<Parameter>)
    requires ValidSetup(c) && SizedGrid(c, s.cells) && s.state == Idle && AreParameters(ps) && |Joined(ps)| < 32
    ensures var r := WriteText(c, s, [27, '[' as int] + Joined(ps) + ['m' as int]);
            && r.Next? && r.s == s.(colors := AllColoured(s.colors, Counted(ps)), buf := r.s.buf)
  {
    var text := Joined(ps);
    JoinedBytes(ps);
    ReadSequence(c, s, text);
    WriteConcat(c, s, [27, '[' as int] + text, ['m' as int]);
    var t := s.(state := AnsiReadingCsi, buf := text);
    EndSgr(c, t, ps);
    assert WriteText(c, t, ['m' as int]) == Write(c, t, 'm' as int) by {
      hide Write;
      assert ['m' as int][1..] == [];
    }
  }

  lemma EndSgr(c: Setup, s: Screen, ps: seq<Parameter>)
    requires ValidSetup(c) && SizedGrid(c, s.cells) && s.state == AnsiReadingCsi && AreParameters(ps)
    requires s.buf == Joined(ps)
    ensures var r := Write(c, s, 'm' as int);
            r.Next? && r.s == s.(state := Idle, colors := AllColoured(s.colors, Counted(ps)), buf := r.s.buf)
  {
    hide SizedGrid, Joined, Sgr, Coloured, SgrLoop, W.Spells, W.Denotes;
    var text := s.buf;
    assert (text + [109])[..|text|] == text;
    JoinedBytes(ps);
    NoNul(text);
    ParamsJoined(ps);
    SgrLoopIs(s.colors, [], text);
    ReadableParameters(ps);
    if |ps| == 1 && TextOf(ps[0]) == [] {
      ResetOnly(s.colors, ps, text);
    } else {
      SgrAllIs(s.colors, ps);
      JoinedText(ps);
    }
  }

  lemma ResetOnly(colors: Colors, ps: seq<Parameter>, text: seq<Byte>)
    requires |ps| == 1 && IsParameter(ps[0]) && TextOf(ps[0]) == [] && text == Joined(ps)
    ensures text == [] && Sgr(colors, []) == AllColoured(colors, Counted(ps))
  {
    ColouredIs(colors, ps[0]);
    assert AllColoured(Coloured(colors, ps[0]), ps[1..]) == Coloured(colors, ps[0]);
  }

  lemma JoinedText(ps: seq<Parameter>)
    requires ps != [] && (|ps| == 1 ==> TextOf(ps[0]) != [])
    ensures Joined(ps) != []
  {
  }

  // After 32 characters without a final byte the sequence is given up, and what follows is printed again.
  lemma GivesUp(c: Setup, s: Screen, text: seq<Byte>)
    requires ValidSetup(c) && SizedGrid(c, s.cells) && s.state == Idle && |text| == 32
    requires forall i :: 0 <= i < |text| ==> !(0x40 <= text[i] <= 0x7E)
    ensures WriteText(c, s, [27, '[' as int] + text) == Next(s.(buf := text))
  {
    var first, last := text[..31], text[31];
    ReadSequence(c, s, first);
    assert [27, '[' as int] + text == [27, '[' as int] + first + [last];
    WriteConcat(c, s, [27, '[' as int] + first, [last]);
    var t := s.(state := AnsiReadingCsi, buf := first);
    assert first + [last] == text;
    OneCharacter(c, t, last);
  }

  // ----- drawn characters -----

  // One cell of the grid is replaced.
  ghost predicate OnlyCell(was: Grid, now: Grid, x: nat, y: nat, cell: Cell) {
    && |now| == |was| && (forall j :: 0 <= j < |was| ==> |now[j]| == |was[j]|)
    && forall i, j :: 0 <= j < |was| && 0 <= i < |was[j]| ==>
         now[j][i] == if i == x && j == y then cell else was[j][i]
  }

  // The glyph of a character: its own if the font has it and the char is not negative, else a question mark.
  function Glyph(c: Setup, ch: Byte): nat {
    if ch < 128 && ch <= c.maxGlyph then ch else '?' as int
  }

  // A character other than a line break or an escape, not in the last column, is drawn at the cursor in the
  // palette's colours, and the cursor moves on by one.
  lemma DrawsCharacter(c: Setup, s: Screen, ch: Byte)
    requires ValidSetup(c) && SizedGrid(c, s.cells) && s.state == Idle && InGrid(c, s) && s.x + 1 < c.cols
    requires ch != 10 && ch != 27
    ensures var r := Write(c, s, ch);
            && r.Next? && r.s == s.(cells := r.s.cells, x := s.x + 1)
            && OnlyCell(s.cells, r.s.cells, s.x, s.y,
                        Cell(Glyph(c, ch), c.palette[s.colors.fg % 16], c.palette[s.colors.bg % 16]))
  {
  }

  // ESC [ attributes m and a character: the character's cell has the colours of the attributes, in order.
  lemma ColouredCharacter(c: Setup, s: Screen, ps: seq<Parameter>, ch: Byte)
    requires ValidSetup(c) && SizedGrid(c, s.cells) && s.state == Idle && InGrid(c, s) && s.x + 1 < c.cols
    requires AreParameters(ps) && |Joined(ps)| < 32 && ch != 10 && ch != 27
    ensures var r, after := WriteText(c, s, [27, '[' as int] + Joined(ps) + ['m' as int] + [ch]),
                            AllColoured(s.colors, Counted(ps));
            && r.Next? && r.s == s.(cells := r.s.cells, x := s.x + 1, colors := after, buf := r.s.buf)
            && OnlyCell(s.cells, r.s.cells, s.x, s.y,
                        Cell(Glyph(c, ch), c.palette[after.fg % 16], c.palette[after.bg % 16]))
  {
    hide SizedGrid, AllColoured, Counted, OnlyCell, Joined, W.Spells, Write;
    var sequence: seq<Byte> := [27, '[' as int] + Joined(ps) + ['m' as int];
    SelectsColours(c, s, ps);
    WriteConcat(c, s, sequence, [ch]);
    var t := WriteText(c, s, sequence).s;
    DrawsCharacter(c, t, ch);
    OneCharacter(c, t, ch);
  }

  lemma OneCharacter(c: Setup, s: Screen, ch: Byte)
    requires ValidSetup(c) && SizedGrid(c, s.cells)
    ensures WriteText(c, s, [ch]) == Write(c, s, ch)
  {
    hide Write;
    assert [ch][1..] == [];
  }

  // ----- the cursor -----

  // ESC [ row ; column H: positions count from one, and zero is taken as one.
  lemma MovesCursor(c: Setup, s: Screen, row: Parameter, column: Parameter)
    requires ValidSetup(c) && SizedGrid(c, s.cells) && s.state == Idle && IsParameter(row) && IsParameter(column)
    ensures var r := WriteText(c, s, [27, '[' as int] + (TextOf(row) + [';' as int] + TextOf(column)) + ['H' as int]);
            && r.Next? && r.s == s.(x := r.s.x, y := r.s.y, buf := r.s.buf)
            && r.s.y == (if NumberOf(row) == 0 then 0 else NumberOf(row) - 1)
            && r.s.x == (if NumberOf(column) == 0 then 0 else NumberOf(column) - 1)
  {
    var ps, text := [row, column], TextOf(row) + [';' as int] + TextOf(column);
    assert text == Joined(ps) by {
      assert ps[1..] == [column];
    }
    JoinedBytes(ps);
    ReadSequence(c, s, text);
    WriteConcat(c, s, [27, '[' as int] + text, ['H' as int]);
    var t := s.(state := AnsiReadingCsi, buf := text);
    OneCharacter(c, t, 'H' as int);
    EndCup(c, t, row, column);
  }

  lemma EndCup(c: Setup, s: Screen, row: Parameter, column: Parameter)
    requires ValidSetup(c) && SizedGrid(c, s.cells) && s.state == AnsiReadingCsi
    requires IsParameter(row) && IsParameter(column) && s.buf == Joined([row, column])
    ensures var r := Write(c, s, 'H' as int);
            && r.Next? && r.s == s.(state := Idle, x := r.s.x, y := r.s.y, buf := r.s.buf)
            && r.s.y == (if NumberOf(row) == 0 then 0 else NumberOf(row) - 1)
            && r.s.x == (if NumberOf(column) == 0 then 0 else NumberOf(column) - 1)
  {
    hide SizedGrid, Joined, CupLoop, W.Spells, W.Denotes, IsParameter, CupAll;
    var ps, text := [row, column], s.buf;
    assert (text + [72])[..|text|] == text;
    JoinedBytes(ps);
    NoNul(text);
    ParamsJoined(ps);
    CupLoopIs(Cursor(s.x, s.y), true, [], text);
    ReadableParameters(ps);
    NumberIs(row);
    NumberIs(column);
    CupAllIs(Cursor(s.x, s.y), true, Texts(ps));
  }

  // ----- the end of a line -----

  // On the last row a line break moves everything up by five rows, leaves five blank rows in the background
  // colour, and the cursor at the start of the first of them; on others it goes to the start of the next row.
  lemma BreaksLine(c: Setup, s: Screen)
    requires ValidSetup(c) && SizedGrid(c, s.cells) && s.state == Idle && s.y < c.rows && c.rows >= 5 && c.moves
    ensures var r := Write(c, s, 10);
            && r.Next? && r.s == s.(x := 0, y := r.s.y, cells := r.s.cells)
            && if s.y + 1 < c.rows then r.s.y == s.y + 1 && r.s.cells == s.cells
               else
                 var paper := c.palette[s.colors.bg % 16];
                 && r.s.y == c.rows - 5 && |r.s.cells| == c.rows
                 && (forall j :: 0 <= j < c.rows - 5 ==> r.s.cells[j] == s.cells[j + 5])
                 && (forall j :: c.rows - 5 <= j < c.rows ==> |r.s.cells[j]| == c.cols)
                 && (forall i, j :: c.rows - 5 <= j < c.rows && 0 <= i < c.cols ==>
                       r.s.cells[j][i].fg == r.s.cells[j][i].bg == paper)
  {
  }

  // A character in the last column is followed by such a line break.
  lemma WrapsLine(c: Setup, s: Screen, ch: Byte)
    requires ValidSetup(c) && SizedGrid(c, s.cells) && s.state == Idle && InGrid(c, s) && s.x + 1 == c.cols
    requires ch != 10 && ch != 27
    ensures exists t: Screen ::
              && t == s.(cells := t.cells, x := c.cols) && SizedGrid(c, t.cells)
              && OnlyCell(s.cells, t.cells, s.x, s.y,
                          Cell(Glyph(c, ch), c.palette[s.colors.fg % 16], c.palette[s.colors.bg % 16]))
              && Write(c, s, ch) == Write(c, t, 10)
  {
    var cell := Cell(Glyph(c, ch), c.palette[s.colors.fg % 16], c.palette[s.colors.bg % 16]);
    var t := s.(cells := Put(s.cells, s.x, s.y, cell), x := c.cols);
    assert OnlyCell(s.cells, t.cells, s.x, s.y, cell);
    assert Write(c, s, ch) == Write(c, t, 10);
  }
}
