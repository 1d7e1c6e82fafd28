/**
 * What the engine promises, stated over the model both copies are proved against:
 * the look each colour sequence selects, the strings of the green mode, the trail
 * length step function, what a tick leaves in each cell and each drop, the two-state
 * resize rule, the characters a frame displays, and the resize schedule of run.
 */
module RainProperties {
  import opened Wrappers
  import opened Sgr
  import opened RainModel

  // ---------------------------------------------------------------- colour

  /** The palette codes name the palette colours. */
  lemma PaletteCodes(c: int)
    requires 0 <= c < |ColorCodes|
    ensures 30 <= ColorCodes[c] <= 37 && Colours[ColorCodes[c] - 30] == Palette[c]
  {
  }

  /** What an SGR sequence followed by more SGR sequences does, from rendition r. */
  lemma EffectThen(r: Rendition, ps: seq<nat>, rest: string)
    requires |ps| > 0
    ensures Effect(r, Sequence(ps) + rest) == Effect(SelectAll(r, ps), rest)
  {
    DecodeSequence(ps, rest);
  }

  lemma SelectTwo(r: Rendition, a: nat, b: nat)
    ensures SelectAll(r, [a, b]) == Select(Select(r, a), b)
  {
    assert [a, b][0] == a && [a, b][1..] == [b];
    assert SelectAll(r, [a, b]) == SelectAll(Select(r, a), [b]);
    assert [b][0] == b && [b][1..] == [];
    assert SelectAll(Select(r, a), [b]) == SelectAll(Select(Select(r, a), b), []);
  }

  /** The shade parameters select the look of a cell that is not bold, from the default rendition. */
  lemma ShadeLook(rainbow: bool, intensity: int, color: int)
    requires ColorOk(rainbow, intensity, color)
    ensures SelectAll(Default, ShadeParams(rainbow, intensity, color)) == Look(rainbow, intensity, false, color)
  {
    var ps := ShadeParams(rainbow, intensity, color);
    if |ps| == 2 {
      SelectTwo(Default, ps[0], ps[1]);
      assert ps == [ps[0], ps[1]];
    } else {
      assert ps == [ps[0]] && ps[1..] == [];
    }
    if rainbow && intensity != 0 {
      PaletteCodes(color);
    }
  }

  /**
   * setColor selects the rendition intended for the intensity level, from the default rendition render
   * restores after every cell: black when invisible, faint green (or palette colour) when
   * dim, normal or bold when normal, bold when bright, bold in the bright variant at the head.
   */
  lemma ColorSequenceLook(rainbow: bool, intensity: int, isBold: bool, color: int)
    requires ColorOk(rainbow, intensity, color)
    ensures Effect(Default, ColorSequence(rainbow, intensity, isBold, color)) == Some(Look(rainbow, intensity, isBold, color))
  {
    var ps := ShadeParams(rainbow, intensity, color);
    var tail := if AddsBold(intensity, isBold) then Sequence([1]) else "";
    EffectThen(Default, ps, tail);
    ShadeLook(rainbow, intensity, color);
    if AddsBold(intensity, isBold) {
      EffectThen(Look(rainbow, intensity, false, color), [1], "");
      assert Sequence([1]) + "" == Sequence([1]);
    }
  }

  /** The colour sequence setColor writes displays nothing, whatever follows it. */
  lemma ColorSequenceHidden(rainbow: bool, intensity: int, isBold: bool, color: int, rest: string)
    requires ColorOk(rainbow, intensity, color)
    ensures Strip(ColorSequence(rainbow, intensity, isBold, color) + rest) == Strip(rest)
  {
    var ps := ShadeParams(rainbow, intensity, color);
    var bold := if AddsBold(intensity, isBold) then Sequence([1]) else "";
    assert ColorSequence(rainbow, intensity, isBold, color) + rest == Sequence(ps) + (bold + rest);
    StripSequence(ps, bold + rest);
    if AddsBold(intensity, isBold) {
      StripSequence([1], rest);
    } else {
      assert bold + rest == rest;
    }
  }

  /** A two-digit number's numeral. */
  lemma TwoDigits(n: nat)
    requires 10 <= n < 100
    ensures Decimal(n) == [DigitChar(n / 10), DigitChar(n % 10)]
  {
  }

  /** SGR with one two-digit parameter. */
  lemma OneParam(a: nat)
    requires 10 <= a < 100
    ensures Sequence([a]) == [Esc, '[', DigitChar(a / 10), DigitChar(a % 10), 'm']
  {
    TwoDigits(a);
  }

  /** SGR with a one-digit and a two-digit parameter. */
  lemma TwoParams(a: nat, b: nat)
    requires a < 10 && 10 <= b < 100
    ensures Sequence([a, b]) == [Esc, '[', DigitChar(a), ';', DigitChar(b / 10), DigitChar(b % 10), 'm']
  {
    TwoDigits(b);
    assert [a, b][1..] == [b];
    assert Params([a, b]) == Decimal(a) + ";" + Decimal(b);
  }

  /** The strings of the green mode, as matrix_rain.cpp writes them. */
  lemma GreenShades()
    ensures Sequence(ShadeParams(false, 0, 0)) == [Esc] + "[30m"
    ensures Sequence(ShadeParams(false, 1, 0)) == [Esc] + "[2;32m"
    ensures Sequence(ShadeParams(false, 2, 0)) == [Esc] + "[32m"
    ensures Sequence(ShadeParams(false, 3, 0)) == [Esc] + "[1;32m"
    ensures Sequence(ShadeParams(false, 4, 0)) == [Esc] + "[1;92m"
  {
    OneParam(30);
    OneParam(32);
    TwoParams(2, 32);
    TwoParams(1, 32);
    TwoParams(1, 92);
  }

  /** The bold suffix is ESC [1m for a bold cell brighter than dim, and nothing otherwise. */
  lemma BoldSuffix(rainbow: bool, intensity: int, isBold: bool, color: int)
    requires ColorOk(rainbow, intensity, color)
    ensures ColorSequence(rainbow, intensity, isBold, color) ==
      Sequence(ShadeParams(rainbow, intensity, color)) + (if isBold && intensity > 1 then [Esc] + "[1m" else "")
  {
    assert Decimal(1) == "1";
  }

  /** Green mode ignores the palette index: setColor of matrix_rain.cpp, without one, writes the same strings. */
  lemma GreenIgnoresColor(intensity: int, isBold: bool, color: int)
    ensures ColorSequence(false, intensity, isBold, color) == ColorSequence(false, intensity, isBold)
  {
  }

  /** The default palette index 2 is green: with it the rainbow mode writes the green mode's strings. */
  lemma DefaultColorIsGreen(intensity: int, isBold: bool)
    ensures ColorSequence(true, intensity, isBold) == ColorSequence(false, intensity, isBold)
  {
  }

  // ---------------------------------------------------------------- trail length

  /** A taller terminal never gets a shorter trail. */
  lemma TrailLengthMonotone(a: int, b: int)
    requires a <= b
    ensures TrailLength(a) <= TrailLength(b)
  {
  }

  /** The fallback 24-row terminal gets a trail of 12. */
  lemma TrailLengthFallback()
    ensures TrailLength(TerminalSize(None).1) == 12
  {
  }

  /**
   * Without a size answer the engine starts at 80 x 24 with a trail of 12: 80 drops, each
   * with a head row in -23..0 and a speed in 1..3, over a blank buffer, after 160 draws.
   */
  lemma InitialFallback(rand: nat -> nat, rainbow: bool)
    ensures var t := Initial(rand, None, rainbow);
      && (t.width, t.height, t.trailLength) == (80, 24, 12)
      && t.screen == BlankGrid(24, 80) && t.cursor == 160
      && |t.drops| == 80 && forall x :: 0 <= x < 80 ==> -23 <= t.drops[x] <= 0 && 1 <= t.speeds[x] <= 3
  {
  }

  // ---------------------------------------------------------------- one tick

  /**
   * After a tick, cell (y, x) is painted exactly when y lies on the drop's trail, that is
   * 0 <= d - y < trailLength for the drop's old head row d; it is then banded by its offset
   * d - y, otherwise blank.
   */
  lemma TickCell(rand: nat -> nat, s: Rain, y: int, x: int)
    requires Inv(s) && s.height >= 2 && 0 <= y < s.height && 0 <= x < s.width
    ensures var c, i := Tick(rand, s).screen[y][x], s.drops[x] - y;
      (0 <= i < s.trailLength ==> Banded(c, s.trailLength, i, s.rainbow)) &&
      (!(0 <= i < s.trailLength) ==> c == Blank)
  {
    var cs := Columns(rand, s.cursor, s.height, s.trailLength, s.rainbow, s.drops, s.speeds);
    ColumnsStepped(rand, s.cursor, s.height, s.trailLength, s.rainbow, s.drops, s.speeds);
    assert Stepped(cs[x], s.height, s.trailLength, s.drops[x], s.speeds[x], s.rainbow);
    assert Tick(rand, s).screen[y][x] == CellOf(cs[x], y);
  }

  /** What banding promises of a cell: an intensity 0..4, 3 or 4 at the head, boldness only in the first half. */
  lemma BandedBounds(c: Cell, L: nat, i: int, rainbow: bool)
    requires Banded(c, L, i, rainbow)
    ensures 0 <= c.intensity <= 4
    ensures i == 0 ==> 3 <= c.intensity
    ensures i >= L / 2 && i != 0 ==> !c.isBold && c.intensity <= 1
  {
  }

  /**
   * After a tick each drop has moved by its speed, unless that took it past row
   * height + trailLength: then it respawns at a head row in -(height/2 - 1)..0 with a new speed 1..3.
   */
  lemma TickDrop(rand: nat -> nat, s: Rain, x: int)
    requires Inv(s) && s.height >= 2 && 0 <= x < s.width
    ensures var t, d, v := Tick(rand, s), s.drops[x], s.speeds[x];
      if d + v > s.height + s.trailLength
      then -(s.height / 2 - 1) <= t.drops[x] <= 0 && 1 <= t.speeds[x] <= 3
      else t.drops[x] == d + v && t.speeds[x] == v
  {
    var cs := Columns(rand, s.cursor, s.height, s.trailLength, s.rainbow, s.drops, s.speeds);
    ColumnsStepped(rand, s.cursor, s.height, s.trailLength, s.rainbow, s.drops, s.speeds);
    assert Stepped(cs[x], s.height, s.trailLength, s.drops[x], s.speeds[x], s.rainbow);
  }

  // ---------------------------------------------------------------- resize

  /** updateTerminalSize leaves the state as it is exactly when the size is unchanged, and writes nothing then. */
  lemma ResyncUnchanged(rand: nat -> nat, s: Rain, query: Option<(int, int)>)
    requires Inv(s) && SizeOk(TerminalSize(query))
    ensures Resync(rand, s, query) == s <==> TerminalSize(query) == (s.width, s.height)
    ensures ResyncText(s, query) == "" <==> TerminalSize(query) == (s.width, s.height)
  {
  }

  /** After a resize: the new size, its trail length, a blank buffer of the new size and fresh drops. */
  lemma ResyncResized(rand: nat -> nat, s: Rain, query: Option<(int, int)>)
    requires Inv(s) && SizeOk(TerminalSize(query)) && TerminalSize(query) != (s.width, s.height)
    ensures var t, (w, h) := Resync(rand, s, query), TerminalSize(query);
      && t.width == w && t.height == h && t.trailLength == TrailLength(h)
      && t.screen == BlankGrid(h, w)
      && |t.drops| == w && forall x :: 0 <= x < w ==> -(h - 1) <= t.drops[x] <= 0 && 1 <= t.speeds[x] <= 3
  {
  }

  // ---------------------------------------------------------------- what a frame displays

  /** The character a cell shows: its glyph when lit, a space otherwise. */
  function Shown(c: Cell): char
  {
    if c.intensity > 0 then c.character else ' '
  }

  function ShownRow(row: seq<Cell>): (s: string)
    ensures |s| == |row| && forall x :: 0 <= x < |row| ==> s[x] == Shown(row[x])
    decreases |row|
  {
    if row == [] then "" else ShownRow(row[..|row| - 1]) + [Shown(row[|row| - 1])]
  }

  /** The rows as a terminal shows them: each row's characters followed by a newline. */
  function ShownRows(rows: Grid): string
    decreases |rows|
  {
    if rows == [] then "" else ShownRows(rows[..|rows| - 1]) + ShownRow(rows[|rows| - 1]) + "\n"
  }

  /** Cells whose characters are no control sequence introducer. */
  predicate Printable(rows: Grid)
  {
    forall y, x :: 0 <= y < |rows| && 0 <= x < |rows[y]| ==> rows[y][x].character != Esc
  }

  /** A cell slot displays its shown character. */
  lemma StripCellText(c: Cell, rainbow: bool, rest: string)
    requires ColorOk(rainbow, c.intensity, c.color) && c.character != Esc
    ensures Strip(CellText(c, rainbow) + rest) == [Shown(c)] + Strip(rest)
  {
    if c.intensity > 0 {
      var ps := ShadeParams(rainbow, c.intensity, c.color);
      var bold := if AddsBold(c.intensity, c.isBold) then Sequence([1]) else "";
      StripLitCell(Sequence(ps), bold, c.character, rest);
      StripSequence(ps, bold + ([c.character] + (Reset + rest)));
      if AddsBold(c.intensity, c.isBold) {
        StripSequence([1], [c.character] + (Reset + rest));
      } else {
        assert bold + ([c.character] + (Reset + rest)) == [c.character] + (Reset + rest);
      }
      StripChar(c.character, Reset + rest);
      StripSequence([0], rest);
    } else {
      StripChar(' ', rest);
      assert CellText(c, rainbow) == " ";
    }
  }

  /** The slot of a lit cell, regrouped as Strip reads it. */
  lemma StripLitCell(shade: string, bold: string, ch: char, rest: string)
    ensures shade + bold + [ch] + Reset + rest == shade + (bold + ([ch] + (Reset + rest)))
  {
  }

  /** A row of cell slots displays the row's shown characters. */
  lemma {:induction false} StripRowText(row: seq<Cell>, rainbow: bool, rest: string)
    requires forall x :: 0 <= x < |row| ==> ColorOk(rainbow, row[x].intensity, row[x].color) && row[x].character != Esc
    ensures Strip(RowText(row, rainbow) + rest) == ShownRow(row) + Strip(rest)
    decreases |row|
  {
    if row == [] {
      assert RowText(row, rainbow) + rest == rest;
    } else {
      var n := |row| - 1;
      StripRowText(row[..n], rainbow, CellText(row[n], rainbow) + rest);
      StripRowStep(row, rainbow, rest);
    }
  }

  /** The induction step of StripRowText: the row's last slot after the others. */
  lemma StripRowStep(row: seq<Cell>, rainbow: bool, rest: string)
    requires row != [] && forall x :: 0 <= x < |row| ==> ColorOk(rainbow, row[x].intensity, row[x].color) && row[x].character != Esc
    requires var n := |row| - 1;
      Strip(RowText(row[..n], rainbow) + (CellText(row[n], rainbow) + rest)) ==
        ShownRow(row[..n]) + Strip(CellText(row[n], rainbow) + rest)
    ensures Strip(RowText(row, rainbow) + rest) == ShownRow(row) + Strip(rest)
  {
    var n := |row| - 1;
    RowTextLast(row, rainbow, rest);
    StripCellText(row[n], rainbow, rest);
    AppendAssoc(ShownRow(row[..n]), [Shown(row[n])], Strip(rest));
  }

  /** A row's slots, regrouped at the last cell. */
  lemma RowTextLast(row: seq<Cell>, rainbow: bool, rest: string)
    requires row != [] && forall x :: 0 <= x < |row| ==> ColorOk(rainbow, row[x].intensity, row[x].color)
    ensures RowText(row, rainbow) + rest ==
      RowText(row[..|row| - 1], rainbow) + (CellText(row[|row| - 1], rainbow) + rest)
  {
  }

  /** Rows of slots, each followed by a newline, display the shown rows. */
  lemma {:induction false} StripRowsText(rows: Grid, rainbow: bool, rest: string)
    requires Renderable(rows, rainbow) && Printable(rows)
    ensures Strip(RowsText(rows, rainbow) + rest) == ShownRows(rows) + Strip(rest)
    decreases |rows|
  {
    if rows == [] {
      assert RowsText(rows, rainbow) + rest == rest;
    } else {
      var n := |rows| - 1;
      assert forall y :: 0 <= y < n ==> rows[..n][y] == rows[y];
      StripRowsText(rows[..n], rainbow, RowText(rows[n], rainbow) + ("\n" + rest));
      StripRowsStep(rows, rainbow, rest);
    }
  }

  /** The induction step of StripRowsText: the last row and its newline after the others. */
  lemma StripRowsStep(rows: Grid, rainbow: bool, rest: string)
    requires rows != [] && Renderable(rows, rainbow) && Printable(rows)
    requires var n := |rows| - 1;
      Strip(RowsText(rows[..n], rainbow) + (RowText(rows[n], rainbow) + ("\n" + rest))) ==
        ShownRows(rows[..n]) + Strip(RowText(rows[n], rainbow) + ("\n" + rest))
    ensures Strip(RowsText(rows, rainbow) + rest) == ShownRows(rows) + Strip(rest)
  {
    var n := |rows| - 1;
    var text := RowText(rows[n], rainbow);
    RowsTextLast(rows, rainbow, rest);
    StripRowText(rows[n], rainbow, "\n" + rest);
    StripChar('\n', rest);
    AppendAssoc(ShownRows(rows[..n]), ShownRow(rows[n]), "\n" + Strip(rest));
    AppendAssoc(ShownRows(rows[..n]) + ShownRow(rows[n]), "\n", Strip(rest));
  }

  /** The rows' text, regrouped at the last row. */
  lemma RowsTextLast(rows: Grid, rainbow: bool, rest: string)
    requires rows != [] && Renderable(rows, rainbow)
    ensures var n := |rows| - 1;
      RowsText(rows, rainbow) + rest == RowsText(rows[..n], rainbow) + (RowText(rows[n], rainbow) + ("\n" + rest))
  {
    var n := |rows| - 1;
    var a, b := RowsText(rows[..n], rainbow), RowText(rows[n], rainbow);
    assert RowsText(rows, rainbow) == a + b + "\n";
    AppendAssoc(a, b, "\n");
    AppendAssoc(a, b + "\n", rest);
    AppendAssoc(b, "\n", rest);
  }

  /**
   * A frame displays rows 0..height-2 of the buffer, width characters each followed by a
   * newline: each lit cell's glyph, a space for each unlit one. The last row never shows.
   */
  lemma FrameDisplays(s: Rain)
    requires Inv(s)
    ensures Strip(FrameText(s.screen, s.height, s.rainbow)) == ShownRows(s.screen[..s.height - 1])
  {
    InvPrintable(s);
    StripFrame(s.screen[..s.height - 1], s.rainbow);
  }

  /** Home followed by the rows' text displays the shown rows. */
  lemma StripFrame(rows: Grid, rainbow: bool)
    requires Renderable(rows, rainbow) && Printable(rows)
    ensures Strip(Home + RowsText(rows, rainbow)) == ShownRows(rows)
  {
    StripRowsText(rows, rainbow, "");
    StripHome(RowsText(rows, rainbow));
  }

  /** The buffer of a well-formed state can be rendered, and holds no ESC. */
  lemma InvPrintable(s: Rain)
    requires Inv(s)
    ensures var rows := s.screen[..s.height - 1];
      Renderable(rows, s.rainbow) && Printable(rows) && Renderable(s.screen, s.rainbow)
  {
    var rows: Grid := s.screen[..s.height - 1];
    forall y, x | 0 <= y < |rows| && 0 <= x < |rows[y]|
      ensures rows[y][x].character != Esc
    {
      assert rows[y][x] == s.screen[y][x];
      assert CellOk(s.screen[y][x], s.rainbow);
    }
    forall y, x | 0 <= y < |s.screen| && 0 <= x < |s.screen[y]|
      ensures ColorOk(s.rainbow, s.screen[y][x].intensity, s.screen[y][x].color)
    {
      assert CellOk(s.screen[y][x], s.rainbow);
    }
  }

  /** Cursor home displays nothing. */
  lemma StripHome(body: string)
    ensures Strip(Home + body) == Strip(body + "")
  {
    StripCsi("", 'H', body);
    assert Csi + "" + ['H'] + body == Home + body;
    assert body + "" == body;
  }

  // ---------------------------------------------------------------- run

  /** The frames on which the first n frames of run ask for the size, in order. */
  function CheckedFrames(n: nat): seq<nat>
    decreases n
  {
    if n == 0 then [] else CheckedFrames(n - 1) + (if Checked(n - 1) then [n - 1] else [])
  }

  /** The first n frames ask on frames 0, 50, 100, ...: one check per started block of fifty. */
  lemma {:induction false} CheckedFramesAre(n: nat)
    ensures CheckedFrames(n) == seq((n + 49) / 50, i => 50 * i)
    decreases n
  {
    if n > 0 {
      CheckedFramesAre(n - 1);
      var m := n - 1;
      if m % 50 == 0 {
        assert (n + 49) / 50 == (m + 49) / 50 + 1;
        assert 50 * ((m + 49) / 50) == m;
      } else {
        assert (n + 49) / 50 == (m + 49) / 50;
      }
    }
  }

  /** run asks twenty times, the first time before the first update. */
  lemma RunChecks()
    ensures |CheckedFrames(FrameCount)| == 20 && CheckedFrames(FrameCount)[0] == 0
  {
    CheckedFramesAre(FrameCount);
  }

  /** The first frame resizes before its tick. */
  lemma FirstFrameChecks(rand: nat -> nat, s: Rain, sizes: nat -> Option<(int, int)>)
    requires Inv(s) && SizesOk(sizes, 1)
    ensures Frames(rand, s, sizes, 1).0 == Tick(rand, Resync(rand, s, sizes(0)))
  {
  }

  /** run consults the size answers of the checked frames only. */
  lemma {:induction false} FramesConsultChecked(rand: nat -> nat, s: Rain, sizes: nat -> Option<(int, int)>,
                                                 other: nat -> Option<(int, int)>, n: nat)
    requires Inv(s) && SizesOk(sizes, n) && SizesOk(other, n)
    requires forall f: nat :: f < n && Checked(f) ==> sizes(f) == other(f)
    ensures Frames(rand, s, sizes, n) == Frames(rand, s, other, n)
    decreases n
  {
    if n > 0 {
      FramesConsultChecked(rand, s, sizes, other, n - 1);
      var p := Frames(rand, s, sizes, n - 1);
      FrameConsultsChecked(rand, p.0, sizes, other, n - 1);
    }
  }

  /** One frame reads the size answer of its own frame, and only when that frame is checked. */
  lemma FrameConsultsChecked(rand: nat -> nat, t: Rain, sizes: nat -> Option<(int, int)>,
                             other: nat -> Option<(int, int)>, f: nat)
    requires Inv(t)
    requires if Checked(f) then ResizeOk(sizes(f)) && sizes(f) == other(f) else t.height >= 2
    ensures Frame(rand, t, sizes, f) == Frame(rand, t, other, f)
  {
  }
}
