/**
 * The older green-only engine, class DynamicMatrixRain of matrix_rain.cpp. Its cells
 * have no colour field; embedding a cell with colour 0 maps its state onto the
 * green mode of RainModel, so both copies are proved against the same definitions.
 */
module ClassicRain {
  import opened Wrappers
  import opened Sgr
  import opened RainModel

  /** A cell of the green-only buffer: a character, an intensity 0..4 and a bold flag. */
  datatype MonoCell = MonoCell(character: char, intensity: int, isBold: bool)

  const MonoBlank: MonoCell := MonoCell(' ', 0, false)

  type MonoGrid = seq<seq<MonoCell>>

  /** A green-only cell as a cell of the two-mode model: colour 0. */
  function Embed(c: MonoCell): Cell
  {
    Cell(c.character, c.intensity, c.isBold, 0)
  }

  /** A cell of the two-mode model without its colour. */
  function Mono(c: Cell): MonoCell
  {
    MonoCell(c.character, c.intensity, c.isBold)
  }

  /** Dropping the colour loses nothing of a green-only cell, and nothing of a colour-0 cell. */
  lemma EmbedMono(m: MonoCell, c: Cell)
    ensures Mono(Embed(m)) == m
    ensures c.color == 0 ==> Embed(Mono(c)) == c
    ensures Embed(m) == Blank <==> m == MonoBlank
  {
  }

  /** The buffer as a grid of the two-mode model. */
  function EmbedGrid(g: MonoGrid): (e: Grid)
    ensures |e| == |g| && forall y :: 0 <= y < |g| ==> |e[y]| == |g[y]|
    ensures forall y, x :: 0 <= y < |g| && 0 <= x < |g[y]| ==> e[y][x] == Embed(g[y][x])
  {
    seq(|g|, y requires 0 <= y < |g| => seq(|g[y]|, x requires 0 <= x < |g[y]| => Embed(g[y][x])))
  }

  predicate MonoShaped(g: MonoGrid, h: int, w: int)
  {
    |g| == h && forall y :: 0 <= y < h ==> |g[y]| == w
  }

  /** Writing one cell of the buffer writes its embedding into the embedded grid. */
  lemma EmbedWrite(g: MonoGrid, y: int, x: int, m: MonoCell)
    requires 0 <= y < |g| && 0 <= x < |g[y]|
    ensures EmbedGrid(g[y := g[y][x := m]]) == EmbedGrid(g)[y := EmbedGrid(g)[y][x := Embed(m)]]
  {
    var a, b := EmbedGrid(g[y := g[y][x := m]]), EmbedGrid(g)[y := EmbedGrid(g)[y][x := Embed(m)]];
    forall r | 0 <= r < |g|
      ensures a[r] == b[r]
    {
    }
  }

  /** An all-blank buffer embeds as the blank grid. */
  lemma EmbedBlank(g: MonoGrid, h: int, w: int)
    requires h >= 0 && w >= 0 && MonoShaped(g, h, w)
    requires forall y, x :: 0 <= y < h && 0 <= x < w ==> g[y][x] == MonoBlank
    ensures EmbedGrid(g) == BlankGrid(h, w)
  {
    var a, b := EmbedGrid(g), BlankGrid(h, w);
    forall y | 0 <= y < h
      ensures a[y] == b[y]
    {
    }
  }

  class DynamicMatrixRain {
    var width: int
    var height: int
    var trailLength: nat
    var screen: MonoGrid
    var drops: seq<int>
    var dropSpeed: seq<int>
    /** The generator's output for its seed: draw number n is rand(n). */
    const rand: nat -> nat
    /** The number of draws taken so far. */
    var cursor: nat
    /** Everything written to standard output. */
    var out: string

    /** The state as the green mode of the two-mode model. */
    ghost function State(): Rain
      reads this
    {
      Rain(width, height, trailLength, false, EmbedGrid(screen), drops, dropSpeed, cursor)
    }

    ghost predicate Valid()
      reads this
    {
      Inv(State())
    }

    /** The constructor: query the size, compute the trail length, build the buffer and the drops. */
    constructor (query: Option<(int, int)>, rand: nat -> nat)
      requires SizeOk(TerminalSize(query))
      ensures Valid() && this.rand == rand && out == []
      ensures State() == Initial(rand, query, false)
    {
      this.rand := rand;
      width, height, trailLength := 0, 0, 0;
      screen, drops, dropSpeed := [], [], [];
      cursor, out := 0, [];
      new;
      var _ := GetTerminalSize(query);
      trailLength := TrailLength(height);
      InitializeScreen();
    }

    /** Records the size the query reports, or 80 x 24 when it fails; answers whether it succeeded. */
    method GetTerminalSize(query: Option<(int, int)>) returns (ok: bool)
      modifies this`width, this`height
      ensures (width, height) == TerminalSize(query) && ok == query.Some?
    {
      match query
      case Some(size) =>
        width, height, ok := size.0, size.1, true;
      case None =>
        width, height, ok := 80, 24, false;
    }

    method Draw() returns (r: nat)
      modifies this`cursor
      ensures r == rand(old(cursor)) && cursor == old(cursor) + 1
    {
      r := rand(cursor);
      cursor := cursor + 1;
    }

    method GetRandomChar() returns (c: char)
      modifies this`cursor
      ensures c == Glyph(rand(old(cursor))) && cursor == old(cursor) + 1
    {
      var r := Draw();
      c := Glyphs[r % |Glyphs|];
      GlyphInAlphabet(r);
    }

    method ClearScreen()
      modifies this`out
      ensures out == old(out) + ClearText
    {
      out := out + ClearText;
    }

    method HideCursor()
      modifies this`out
      ensures out == old(out) + HideText
    {
      out := out + HideText;
    }

    method ShowCursor()
      modifies this`out
      ensures out == old(out) + ShowText
    {
      out := out + ShowText;
    }

    /** setColor: the green SGR sequence for the intensity, then SGR 1 for a bold cell brighter than dim. */
    method SetColor(intensity: int, isBold: bool)
      modifies this`out
      ensures out == old(out) + ColorSequence(false, intensity, isBold)
    {
      out := out + ColorSequence(false, intensity, isBold);
    }

    method ResetColor()
      modifies this`out
      ensures out == old(out) + Reset
    {
      out := out + Reset;
    }

    /** Sets every cell of the height x width buffer to a blank. */
    method ClearBuffer()
      requires MonoShaped(screen, height, width) && width >= 0
      modifies this`screen
      ensures MonoShaped(screen, height, width) && EmbedGrid(screen) == BlankGrid(height, width)
    {
      var y := 0;
      while y < height
        invariant 0 <= y <= height
        invariant MonoShaped(screen, height, width)
        invariant forall r, x :: 0 <= r < y && 0 <= x < width ==> screen[r][x] == MonoBlank
      {
        var x := 0;
        while x < width
          invariant 0 <= x <= width
          invariant MonoShaped(screen, height, width)
          invariant forall r, j :: 0 <= r < y && 0 <= j < width ==> screen[r][j] == MonoBlank
          invariant forall j :: 0 <= j < x ==> screen[y][j] == MonoBlank
        {
          screen := screen[y := screen[y][x := MonoBlank]];
          x := x + 1;
        }
        y := y + 1;
      }
      EmbedBlank(screen, height, width);
    }

    /** initializeScreen: rebuild the buffer blank at the recorded size, and one drop and speed per column. */
    method InitializeScreen()
      requires SizeOk((width, height))
      modifies this`screen, this`drops, this`dropSpeed, this`cursor
      ensures MonoShaped(screen, height, width)
      ensures State() == Initialize(rand, old(State()))
    {
      // the resized vector holds value-initialized cells until the loop blanks them
      var w, h := width, height;
      screen := seq(h, _ => seq(w, _ => MonoCell('\0', 0, false)));
      ClearBuffer();
      SpawnDrops();
    }

    /** The second loop of initializeScreen: a head row and a speed for each column, two draws per column. */
    method SpawnDrops()
      requires SizeOk((width, height))
      modifies this`drops, this`dropSpeed, this`cursor
      ensures var t := Initialize(rand, old(State()));
        drops == t.drops && dropSpeed == t.speeds && cursor == t.cursor
    {
      ghost var k0 := cursor;
      var w, h := width, height;
      drops := seq(w, _ => 0);
      dropSpeed := seq(w, _ => 0);
      var x := 0;
      while x < w
        invariant 0 <= x <= w
        invariant |drops| == w && |dropSpeed| == w
        invariant cursor == k0 + 2 * x
        invariant forall j :: 0 <= j < x ==> drops[j] == SpawnRow(rand, k0, h, j)
        invariant forall j :: 0 <= j < x ==> dropSpeed[j] == SpawnSpeed(rand, k0, j)
      {
        SpawnDrop(x, h, k0);
        x := x + 1;
      }
      ghost var t := Initialize(rand, old(State()));
      assert drops == t.drops;
      assert dropSpeed == t.speeds;
    }

    /** One pass of that loop: column x's head row from one draw, then its speed from the next. */
    method SpawnDrop(x: int, h: int, ghost k0: nat)
      requires 0 <= x < |drops| == |dropSpeed| && h > 0 && cursor == k0 + 2 * x
      modifies this`drops, this`dropSpeed, this`cursor
      ensures drops == old(drops)[x := SpawnRow(rand, k0, h, x)]
      ensures dropSpeed == old(dropSpeed)[x := SpawnSpeed(rand, k0, x)]
      ensures cursor == old(cursor) + 2
    {
      var r := Draw();
      ModIsRemainder(r, h);
      drops := drops[x := -(r % h)];
      var v := Draw();
      ModIsRemainder(v, 3);
      dropSpeed := dropSpeed[x := 1 + v % 3];
    }

    /** The band of offset i: the level before flicker and the bold flag, with the bold or faint draw. */
    method DrawBand(i: nat) returns (intensity: int, bold: bool)
      modifies this`cursor
      ensures (intensity, bold, cursor) == Band(rand, old(cursor), trailLength, i)
    {
      var r: nat;
      if i == 0 {
        intensity := 4;
        r := Draw();
        ModIsRemainder(r, 3);
        bold := r % 3 == 0;
      } else if i < trailLength / 4 {
        intensity := 3;
        r := Draw();
        ModIsRemainder(r, 5);
        bold := r % 5 == 0;
      } else if i < trailLength / 2 {
        intensity := 2;
        r := Draw();
        ModIsRemainder(r, 8);
        bold := r % 8 == 0;
      } else if i < trailLength * 3 / 4 {
        intensity := 1;
        bold := false;
      } else {
        r := Draw();
        ModIsRemainder(r, 2);
        intensity := r % 2;
        bold := false;
      }
    }

    /**
     * Paints cell (y, x) as offset i of its column's trail. Every field of the cell is
     * written, so its old contents do not matter.
     */
    method PaintCellAt(y: int, x: int, i: nat)
      requires MonoShaped(screen, height, width) && 0 <= y < height && 0 <= x < width
      modifies this`screen, this`cursor
      ensures var p := PaintCell(rand, old(cursor), trailLength, i, false);
        screen == old(screen)[y := old(screen)[y][x := Mono(p.0)]] && cursor == p.1
    {
      ghost var b := Band(rand, cursor, trailLength, i);
      var cell := screen[y][x];
      var intensity, bold := DrawBand(i);
      cell := cell.(isBold := bold);
      ghost var k1 := cursor;
      var c := GetRandomChar();
      cell := cell.(character := c, intensity := intensity);
      var r := Draw();
      ModIsRemainder(r, 20);
      if r % 20 == 0 {
        cell := cell.(intensity := Max0(cell.intensity - 1));
      }
      assert cell == MonoCell(Glyph(rand(k1)), if Mod(rand(k1 + 1), 20) == 0 then Max0(b.0 - 1) else b.0, b.1);
      screen := screen[y := screen[y][x := cell]];
    }

    /** Paints the trail of column x, skipping the rows off the buffer. */
    method PaintTrail(x: int)
      requires MonoShaped(screen, height, width) && 0 <= x < width == |drops|
      modifies this`screen, this`cursor
      ensures MonoShaped(screen, height, width)
      ensures (EmbedGrid(screen), cursor) ==
        Painting(rand, old(cursor), drops[x], trailLength, height, false, EmbedGrid(old(screen)), width, x, trailLength)
    {
      ghost var k0, g0 := cursor, EmbedGrid(screen);
      var i := 0;
      while i < trailLength
        invariant 0 <= i <= trailLength
        invariant MonoShaped(screen, height, width)
        invariant (EmbedGrid(screen), cursor) == Painting(rand, k0, drops[x], trailLength, height, false, g0, width, x, i)
      {
        PaintOffset(x, i, k0, g0);
        i := i + 1;
      }
    }

    /** One pass of the trail loop: offset i of column x's trail, painted when its row is on the buffer. */
    method PaintOffset(x: int, i: nat, ghost k0: nat, ghost g0: Grid)
      requires MonoShaped(screen, height, width) && Shaped(g0, height, width) && 0 <= x < width == |drops|
      requires (EmbedGrid(screen), cursor) == Painting(rand, k0, drops[x], trailLength, height, false, g0, width, x, i)
      modifies this`screen, this`cursor
      ensures MonoShaped(screen, height, width)
      ensures (EmbedGrid(screen), cursor) == Painting(rand, k0, drops[x], trailLength, height, false, g0, width, x, i + 1)
    {
      var y := drops[x] - i;
      if 0 <= y < height {
        ghost var before, k := screen, cursor;
        PaintCellAt(y, x, i);
        EmbedPaintStep(rand, k0, drops[x], trailLength, height, g0, width, x, i, before, k);
      }
    }

    /** Writing the painted cell, without its colour, into row d - i takes the embedded trail loop one offset further. */
    static lemma EmbedPaintStep(rand: nat -> nat, k0: nat, d: int, L: nat, h: int, g0: Grid, w: int, x: int, i: nat,
                                before: MonoGrid, k: nat)
      requires Shaped(g0, h, w) && MonoShaped(before, h, w) && 0 <= x < w && 0 <= d - i < h
      requires (EmbedGrid(before), k) == Painting(rand, k0, d, L, h, false, g0, w, x, i)
      ensures var p := PaintCell(rand, k, L, i, false);
        (EmbedGrid(before[d - i := before[d - i][x := Mono(p.0)]]), p.1) == Painting(rand, k0, d, L, h, false, g0, w, x, i + 1)
    {
      var p := PaintCell(rand, k, L, i, false);
      EmbedWrite(before, d - i, x, Mono(p.0));
      EmbedMono(Mono(p.0), p.0);
    }

    /** update: blank the buffer, then paint and move each column's drop, left to right. */
    method Update()
      requires Valid() && height >= 2
      modifies this`screen, this`drops, this`dropSpeed, this`cursor
      ensures State() == Tick(rand, old(State()))
    {
      ghost var s0 := State();
      ClearBuffer();
      PartialStart(rand, s0);
      var x := 0;
      while x < width
        invariant 0 <= x <= width
        invariant MonoShaped(screen, height, width)
        invariant State() == Partial(rand, s0, x)
      {
        PartialNext(rand, s0, x);
        AdvanceColumn(x);
        x := x + 1;
      }
      PartialEnd(rand, s0);
    }

    /** One pass of update's column loop: paint column x's trail, then move its drop. */
    method AdvanceColumn(x: int)
      requires height >= 2 && MonoShaped(screen, height, width)
      requires 0 <= x < width && |drops| == width && |dropSpeed| == width
      modifies this`screen, this`drops, this`dropSpeed, this`cursor
      ensures MonoShaped(screen, height, width)
      ensures State() == StepAt(rand, old(State()), x)
    {
      PaintingTrail(rand, cursor, drops[x], trailLength, height, false, EmbedGrid(screen), width, x, trailLength);
      PaintTrail(x);
      MoveDrop(x);
    }

    /** The end of a pass: move the drop of column x by its speed, and respawn it once past row height + trailLength. */
    method MoveDrop(x: int)
      requires height >= 2 && 0 <= x < |drops| == |dropSpeed|
      modifies this`drops, this`dropSpeed, this`cursor
      ensures var m := Move(rand, old(cursor), height, trailLength, old(drops[x]), old(dropSpeed[x]));
        drops == old(drops)[x := m.0] && dropSpeed == old(dropSpeed)[x := m.1] && cursor == m.2
    {
      drops := drops[x := drops[x] + dropSpeed[x]];
      if drops[x] > height + trailLength {
        var r := Draw();
        ModIsRemainder(r, height / 2);
        drops := drops[x := -(r % (height / 2))];
        var v := Draw();
        ModIsRemainder(v, 3);
        dropSpeed := dropSpeed[x := 1 + v % 3];
      }
    }

    /** render: cursor home, then every row but the last, each followed by a newline. */
    method Render()
      requires Valid()
      modifies this`out
      ensures out == old(out) + FrameText(EmbedGrid(screen), height, false)
    {
      out := out + Home;
      RenderRows();
      AppendAssoc(old(out), Home, RowsText(EmbedGrid(screen)[..height - 1], false));
    }

    /** The outer loop of render: rows 0..height-2, each followed by a newline. */
    method RenderRows()
      requires MonoShaped(screen, height, width) && 1 <= height
      modifies this`out
      ensures out == old(out) + RowsText(EmbedGrid(screen)[..height - 1], false)
    {
      ghost var g := EmbedGrid(screen);
      ghost var start := out;
      var y := 0;
      while y < height - 1
        invariant 0 <= y <= height - 1
        invariant out == start + RowsText(g[..y], false)
      {
        ghost var before := out;
        RenderRow(y);
        RowsTextExtend(start, before, g, y, false);
        y := y + 1;
      }
    }

    /** The inner loop of render: row y cell by cell, then a newline. */
    method RenderRow(y: int)
      requires 0 <= y < |screen| && |screen[y]| == width
      modifies this`out
      ensures out == old(out) + RowText(EmbedGrid(screen)[y], false) + "\n"
    {
      var row := screen[y];
      ghost var erow := EmbedGrid(screen)[y];
      ghost var start := out;
      var x := 0;
      while x < width
        invariant 0 <= x <= width
        invariant out == start + RowText(erow[..x], false)
      {
        RenderSlot(row[x], erow, x, start);
        x := x + 1;
      }
      assert erow[..width] == erow;
      out := out + "\n";
    }

    /** One step of the inner loop of render: cell x after the cells before it. */
    method RenderSlot(c: MonoCell, ghost erow: seq<Cell>, x: nat, ghost start: string)
      requires x < |erow| && erow[x] == Embed(c) && out == start + RowText(erow[..x], false)
      modifies this`out
      ensures out == start + RowText(erow[..x + 1], false)
    {
      RenderCell(c);
      RowTextSnoc(erow, x, false);
      AppendAssoc(start, RowText(erow[..x], false), CellText(erow[x], false));
    }

    /** One cell of render: a lit cell in its green shade followed by a reset, an unlit one as a space. */
    method RenderCell(c: MonoCell)
      modifies this`out
      ensures out == old(out) + CellText(Embed(c), false)
    {
      if c.intensity > 0 {
        SetColor(c.intensity, c.isBold);
        out := out + [c.character];
        ResetColor();
      } else {
        out := out + " ";
      }
    }

    /** updateTerminalSize: query the size; when it changed, recompute the trail length, reinitialize and clear. */
    method UpdateTerminalSize(query: Option<(int, int)>)
      requires Valid() && SizeOk(TerminalSize(query))
      modifies this`width, this`height, this`trailLength, this`screen, this`drops, this`dropSpeed, this`cursor, this`out
      ensures Valid()
      ensures State() == Resync(rand, old(State()), query)
      ensures out == old(out) + ResyncText(old(State()), query)
    {
      var oldWidth, oldHeight := width, height;
      var _ := GetTerminalSize(query);
      if width != oldWidth || height != oldHeight {
        Reinitialize();
      }
    }

    /** The resize branch of updateTerminalSize: trail length for the new height, a fresh buffer and drops, a cleared display. */
    method Reinitialize()
      requires SizeOk((width, height))
      modifies this`trailLength, this`screen, this`drops, this`dropSpeed, this`cursor, this`out
      ensures State() == Initialize(rand, old(State()).(trailLength := TrailLength(height)))
      ensures out == old(out) + ClearText
    {
      trailLength := TrailLength(height);
      InitializeScreen();
      ClearScreen();
    }

    /**
     * run: clear the display and hide the cursor, animate FrameCount frames, asking the
     * terminal for its size (answer sizes(f)) on every fiftieth frame, then show the
     * cursor, reset the colour and clear the display.
     */
    method Run(sizes: nat -> Option<(int, int)>)
      requires Valid() && SizesOk(sizes, FrameCount)
      modifies this`width, this`height, this`trailLength, this`screen, this`drops, this`dropSpeed, this`cursor, this`out
      ensures Valid()
      ensures var r := Frames(rand, old(State()), sizes, FrameCount);
        State() == r.0 && out == old(out) + RunText(r.1)
    {
      ClearScreen();
      HideCursor();
      ghost var s0 := State();
      Animate(sizes);
      ShowCursor();
      ResetColor();
      ClearScreen();
      RunTextAppend(old(out), Frames(rand, s0, sizes, FrameCount).1);
    }

    /** The frame loop of run. */
    method Animate(sizes: nat -> Option<(int, int)>)
      requires Valid() && SizesOk(sizes, FrameCount)
      modifies this`width, this`height, this`trailLength, this`screen, this`drops, this`dropSpeed, this`cursor, this`out
      ensures Valid()
      ensures var r := Frames(rand, old(State()), sizes, FrameCount);
        State() == r.0 && out == old(out) + r.1
    {
      ghost var s0, start := State(), out;
      var frame := 0;
      while frame < FrameCount
        invariant 0 <= frame <= FrameCount
        invariant Valid()
        invariant State() == Frames(rand, s0, sizes, frame).0
        invariant out == start + Frames(rand, s0, sizes, frame).1
      {
        ghost var p := Frames(rand, s0, sizes, frame);
        RunFrame(sizes, frame);
        AppendAssoc(start, p.1, Frame(rand, p.0, sizes, frame).1);
        frame := frame + 1;
      }
    }

    /** One frame of run's loop: the size check on every fiftieth frame, then update and render. */
    method RunFrame(sizes: nat -> Option<(int, int)>, frame: nat)
      requires Valid() && if Checked(frame) then ResizeOk(sizes(frame)) else height >= 2
      modifies this`width, this`height, this`trailLength, this`screen, this`drops, this`dropSpeed, this`cursor, this`out
      ensures Valid()
      ensures var q := Frame(rand, old(State()), sizes, frame);
        State() == q.0 && out == old(out) + q.1
    {
      CheckSize(sizes, frame);
      Update();
      Render();
      AppendAssoc(old(out), CheckpointText(old(State()), sizes, frame), FrameText(EmbedGrid(screen), height, false));
    }

    /** The size check of frame f: updateTerminalSize on every fiftieth frame. */
    method CheckSize(sizes: nat -> Option<(int, int)>, frame: nat)
      requires Valid() && if Checked(frame) then ResizeOk(sizes(frame)) else height >= 2
      modifies this`width, this`height, this`trailLength, this`screen, this`drops, this`dropSpeed, this`cursor, this`out
      ensures Valid() && height >= 2
      ensures State() == Checkpoint(rand, old(State()), sizes, frame)
      ensures out == old(out) + CheckpointText(old(State()), sizes, frame)
    {
      if frame % 50 == 0 {
        UpdateTerminalSize(sizes(frame));
      }
    }
  }
}
