/**
 * The rain engine as values: the frame buffer's cells, the trail-length step
 * function, the colour a cell is written in, what one tick does to the buffer and
 * to the drops, what a resize does, and the text one frame writes. Both copies of
 * the engine (the two-mode class and the older green-only class) are proved
 * against these definitions.
 *
 * The random number generator is a stream of draws: draw number n is rand(n),
 * and `cursor` counts the draws taken so far. Every property holds for every
 * stream.
 */
module RainModel {
  import opened Wrappers
  import opened Sgr

  /** One character position of the frame buffer: intensity 0 invisible, 1 dim, 2 normal,
      3 bright, 4 head; color an index into the seven-colour palette. */
  datatype Cell = Cell(character: char, intensity: int, isBold: bool, color: int)

  const Blank: Cell := Cell(' ', 0, false, 0)

  /** The buffer, row by row: screen[y][x] is row y, column x. */
  type Grid = seq<seq<Cell>>

  /**
   * Draw r reduced modulo n, as the source's % reduces the generator's unsigned output,
   * written as repeated subtraction; ModIsRemainder shows it is r % n.
   */
  function Mod(r: nat, n: int): (m: int)
    requires n > 0
    ensures 0 <= m < n
    decreases r
  {
    if r < n then r else Mod(r - n, n)
  }

  lemma {:induction false} ModIsRemainder(r: nat, n: int)
    requires n > 0
    ensures Mod(r, n) == r % n
    decreases r
  {
    if r >= n {
      ModIsRemainder(r - n, n);
      RemainderUnique(r, n, (r - n) / n + 1, (r - n) % n);
    }
  }

  /** A split b == n * q + m with 0 <= m < n is the one Euclidean division finds. */
  lemma RemainderUnique(b: int, n: int, q: int, m: int)
    requires n > 0 && 0 <= m < n && b == n * q + m
    ensures b % n == m
  {
    var e := q - b / n;
    assert n * e == n * q - n * (b / n);
    if e > 0 {
      AtLeastFactor(n, e);
    } else if e < 0 {
      assert n * -e == -(n * e);
      AtLeastFactor(n, -e);
    }
  }

  /** A positive multiple of n is at least n. */
  lemma {:induction false} AtLeastFactor(n: int, e: int)
    requires n > 0 && e >= 1
    ensures n * e >= n
    decreases e
  {
    if e > 1 {
      AtLeastFactor(n, e - 1);
      assert n * e == n * (e - 1) + n;
    }
  }

  /** The glyph alphabet of the rain. */
  const Glyphs: string := "ABCDEFGHIJKLMNOPQRSTUVWXYZ0123456789@#$%^&*"

  /**
   * What the rest of the model needs of a glyph: it is drawn, so it is not the space of
   * an empty cell, and it is neither a line break nor the escape that starts a control
   * sequence.
   */
  predicate IsGlyph(c: char)
  {
    c != ' ' && c != '\n' && c != Esc
  }

  /**
   * getRandomChar with draw r: the character at position r modulo 43 of the alphabet,
   * computed from its three runs (letters, digits, symbols); GlyphInAlphabet shows it is
   * the alphabet's element there.
   */
  function Glyph(r: nat): (c: char)
    ensures IsGlyph(c)
  {
    var j := Mod(r, 43);
    if j < 26 then ('A' as int + j) as char
    else if j < 36 then ('0' as int + (j - 26)) as char
    else "@#$%^&*"[j - 36]
  }

  /** Every draw picks the character of the alphabet at the draw's remainder by its size. */
  lemma GlyphInAlphabet(r: nat)
    ensures Glyph(r) == Glyphs[r % |Glyphs|]
  {
    ModIsRemainder(r, 43);
  }

  /** The SGR foreground codes of the rainbow palette. */
  const ColorCodes: seq<nat> := [31, 33, 32, 36, 34, 35, 37]

  /** The colours the palette indices stand for. */
  const Palette: seq<Colour> := [Red, Yellow, Green, Cyan, Blue, Magenta, White]

  function Max0(v: int): (r: int)
    ensures r >= 0 && r >= v && (r == 0 || r == v)
  {
    if v < 0 then 0 else v
  }

  /** calculateTrailLength: the taller the terminal, the longer the trail. */
  function TrailLength(height: int): (r: nat)
    ensures 12 <= r <= 30
  {
    if height <= 24 then 12
    else if height <= 40 then 18
    else if height <= 60 then 25
    else 30
  }

  // ---------------------------------------------------------------- colour

  /** A palette index setColor can look up. */
  predicate ColorOk(rainbow: bool, intensity: int, color: int)
  {
    rainbow && intensity != 0 ==> 0 <= color < |ColorCodes|
  }

  /**
   * The SGR parameters setColor chooses for the weight and hue of a cell: 30 (black) when
   * invisible; in green mode 2;32, 32, 1;32 and 1;92 for intensities 1 to 4; in rainbow mode
   * the palette code of color with the same prefixes, and the code plus 60 at intensity 4.
   */
  function ShadeParams(rainbow: bool, intensity: int, color: int): (ps: seq<nat>)
    requires ColorOk(rainbow, intensity, color)
    ensures 1 <= |ps| <= 2
    ensures (ps[|ps| - 1] == 30) == (intensity == 0)
    ensures (|ps| == 2) == (intensity != 0 && intensity != 2)
    ensures |ps| == 2 ==> ps[0] == (if intensity == 1 then 2 else 1)
    ensures intensity != 0 ==> ps[|ps| - 1] == (if rainbow then ColorCodes[color] else 32) + (if intensity !in {1, 2, 3} then 60 else 0)
  {
    if intensity == 0 then [30]
    else if rainbow then
      var code := ColorCodes[color];
      if intensity == 1 then [2, code]
      else if intensity == 2 then [code]
      else if intensity == 3 then [1, code]
      else [1, code + 60]
    else if intensity == 1 then [2, 32]
    else if intensity == 2 then [32]
    else if intensity == 3 then [1, 32]
    else [1, 92]
  }

  /** Whether setColor follows the shade with SGR 1: a bold cell brighter than dim. */
  predicate AddsBold(intensity: int, isBold: bool)
  {
    isBold && intensity > 1
  }

  /**
   * What setColor writes for a cell: the SGR sequence of its shade, then SGR 1 when the
   * cell is bold and brighter than dim.
   */
  function ColorSequence(rainbow: bool, intensity: int, isBold: bool, color: int := 2): string
    requires ColorOk(rainbow, intensity, color)
  {
    Sequence(ShadeParams(rainbow, intensity, color)) + (if AddsBold(intensity, isBold) then Sequence([1]) else "")
  }

  function Hue(rainbow: bool, color: int): Colour
    requires rainbow ==> 0 <= color < |Palette|
  {
    if rainbow then Palette[color] else Green
  }

  /**
   * The rendition intended for each intensity level: level 0 (invisible) black, level 1
   * (dim) faint, level 2 (normal) in normal weight unless bold, level 3 (bright) bold, and
   * level 4 (the head) bold in the bright variant of its hue; the hue is green, or the
   * palette colour in rainbow mode.
   */
  function Look(rainbow: bool, intensity: int, isBold: bool, color: int): Rendition
    requires ColorOk(rainbow, intensity, color)
  {
    if intensity == 0 then Rendition(Normal, Standard(Black))
    else if intensity == 1 then Rendition(Faint, Standard(Hue(rainbow, color)))
    else if intensity == 2 then Rendition(if isBold then Bold else Normal, Standard(Hue(rainbow, color)))
    else if intensity == 3 then Rendition(Bold, Standard(Hue(rainbow, color)))
    else Rendition(Bold, Bright(Hue(rainbow, color)))
  }

  // ---------------------------------------------------------------- one trail cell

  /** The intensities a trail cell at offset i from the head can end with, flicker included. */
  function Levels(L: nat, i: int): set<int>
  {
    if i == 0 then {3, 4}
    else if i < L / 4 then {2, 3}
    else if i < L / 2 then {1, 2}
    else {0, 1}
  }

  /** What update promises of a cell painted at offset i of a trail of length L. */
  predicate Banded(c: Cell, L: nat, i: int, rainbow: bool)
  {
    && c.intensity in Levels(L, i)
    && (c.isBold ==> i == 0 || i < L / 2)
    && (if rainbow then 0 <= c.color < 7 else c.color == 0)
    && IsGlyph(c.character)
  }

  /**
   * The level and boldness of a trail cell at offset i before flicker, and the next unused
   * draw: the head is level 4 and bold one time in three, the first quarter level 3 and bold
   * one time in five, the second quarter level 2 and bold one time in eight, the third
   * quarter level 1, the rest level 0 or 1 by one draw.
   */
  function Band(rand: nat -> nat, k: nat, L: nat, i: nat): (b: (int, bool, nat))
  {
    if i == 0 then (4, Mod(rand(k), 3) == 0, k + 1)
    else if i < L / 4 then (3, Mod(rand(k), 5) == 0, k + 1)
    else if i < L / 2 then (2, Mod(rand(k), 8) == 0, k + 1)
    else if i < L * 3 / 4 then (1, false, k)
    else (Mod(rand(k), 2), false, k + 1)
  }

  /**
   * The cell update paints at offset i from the head, from the draws rand(k), rand(k+1), ...:
   * first the bold draw (bands 0 to 2) or the faint draw (last band), then the glyph draw,
   * the colour draw in rainbow mode, and the flicker draw, which dims one level one time
   * in twenty. The second component is the next unused draw.
   */
  function PaintCell(rand: nat -> nat, k: nat, L: nat, i: nat, rainbow: bool): (p: (Cell, nat))
    ensures var b := Band(rand, k, L, i);
      && p.0.character == Glyph(rand(b.2))
      && p.0.isBold == b.1
      && p.0.intensity in {b.0, Max0(b.0 - 1)}
      && p.0.color == (if rainbow then Mod(rand(b.2 + 1), 7) else 0)
      && p.1 == b.2 + (if rainbow then 3 else 2)
  {
    var b := Band(rand, k, L, i);
    var k1 := b.2;
    var color := if rainbow then Mod(rand(k1 + 1), 7) else 0;
    var k2 := if rainbow then k1 + 2 else k1 + 1;
    var level := if Mod(rand(k2), 20) == 0 then Max0(b.0 - 1) else b.0;
    (Cell(Glyph(rand(k1)), level, b.1, color), k2 + 1)
  }

  /**
   * The band fixes the level before flicker: 4 at the head, 3 in the first quarter, 2 in
   * the second, 1 in the third, 0 or 1 in the last; only the first half can be bold; the
   * band takes at most one draw.
   */
  lemma BandLevels(rand: nat -> nat, k: nat, L: nat, i: nat)
    ensures var b := Band(rand, k, L, i);
      && k <= b.2 <= k + 1
      && (if i == 0 then b.0 == 4
          else if i < L / 4 then b.0 == 3
          else if i < L / 2 then b.0 == 2
          else if i < L * 3 / 4 then b.0 == 1
          else 0 <= b.0 <= 1)
      && (b.1 ==> i == 0 || i < L / 2)
  {
  }

  /** A painted cell is banded by its offset, and painting takes at least one draw. */
  lemma PaintCellBanded(rand: nat -> nat, k: nat, L: nat, i: nat, rainbow: bool)
    ensures var p := PaintCell(rand, k, L, i, rainbow);
      Banded(p.0, L, i, rainbow) && k < p.1
  {
    BandLevels(rand, k, L, i);
  }

  // ---------------------------------------------------------------- one column

  /**
   * The cells painted by offsets 0..n-1 of the trail of a drop with head row d, keyed by
   * row, in a column of height h, and the next unused draw. Offsets whose row is off
   * the buffer are skipped and take no draws.
   */
  function Trail(rand: nat -> nat, k: nat, d: int, L: nat, h: int, rainbow: bool, n: nat): (t: (map<int, Cell>, nat))
    ensures forall y :: y in t.0 <==> d - n < y <= d && 0 <= y < h
    decreases n
  {
    if n == 0 then (map[], k)
    else
      var (m, k1) := Trail(rand, k, d, L, h, rainbow, n - 1);
      var y := d - (n - 1);
      if 0 <= y < h then
        var (c, k2) := PaintCell(rand, k1, L, n - 1, rainbow);
        (m[y := c], k2)
      else (m, k1)
  }

  /** Every cell of trail m is banded by its offset from head row d. */
  predicate BandedTrail(m: map<int, Cell>, L: nat, d: int, rainbow: bool)
  {
    forall y :: y in m ==> Banded(m[y], L, d - y, rainbow)
  }

  /** Every cell of a trail is banded by its offset from the head. */
  lemma {:induction false} TrailBanded(rand: nat -> nat, k: nat, d: int, L: nat, h: int, rainbow: bool, n: nat)
    ensures BandedTrail(Trail(rand, k, d, L, h, rainbow, n).0, L, d, rainbow)
    decreases n
  {
    if n > 0 {
      TrailBanded(rand, k, d, L, h, rainbow, n - 1);
      var (m, k1) := Trail(rand, k, d, L, h, rainbow, n - 1);
      var y := d - (n - 1);
      if 0 <= y < h {
        var (c, k2) := PaintCell(rand, k1, L, n - 1, rainbow);
        PaintCellBanded(rand, k1, L, n - 1, rainbow);
        assert Trail(rand, k, d, L, h, rainbow, n) == (m[y := c], k2);
        BandedTrailAdd(m, L, d, rainbow, y, c);
      }
    }
  }

  /** Adding a cell banded by its offset keeps a trail banded. */
  lemma BandedTrailAdd(m: map<int, Cell>, L: nat, d: int, rainbow: bool, y: int, c: Cell)
    requires BandedTrail(m, L, d, rainbow) && Banded(c, L, d - y, rainbow)
    ensures BandedTrail(m[y := c], L, d, rainbow)
  {
  }

  /** A column after one tick: its painted trail, its drop's new head row and speed, and the next unused draw. */
  datatype Column = Column(trail: map<int, Cell>, drop: int, speed: int, next: nat)

  /** What update promises of a column whose drop had head row d and speed s. */
  ghost predicate Stepped(c: Column, h: int, L: nat, d: int, s: int, rainbow: bool)
  {
    && (forall y :: y in c.trail <==> d - L < y <= d && 0 <= y < h)
    && (forall y :: y in c.trail ==> Banded(c.trail[y], L, d - y, rainbow))
    && (if d + s > h + L
        then -(h / 2 - 1) <= c.drop <= 0 && 1 <= c.speed <= 3
        else c.drop == d + s && c.speed == s)
  }

  /** One column of update: paint the trail, move the drop, respawn it (two draws) once it is past the bottom. */
  function StepColumn(rand: nat -> nat, k: nat, h: int, L: nat, rainbow: bool, d: int, s: int): (c: Column)
    requires h >= 2
    ensures Stepped(c, h, L, d, s, rainbow)
  {
    TrailBanded(rand, k, d, L, h, rainbow, L);
    var (m, k1) := Trail(rand, k, d, L, h, rainbow, L);
    var (drop, speed, k2) := Move(rand, k1, h, L, d, s);
    Column(m, drop, speed, k2)
  }

  /**
   * The move of a drop with head row d and speed s: d + s, or once that is past row
   * h + L a respawn at a head row in -(h/2 - 1)..0 with a speed in 1..3 (two draws).
   */
  function Move(rand: nat -> nat, k: nat, h: int, L: nat, d: int, s: int): (m: (int, int, nat))
    requires h >= 2
    ensures d + s > h + L ==> -(h / 2 - 1) <= m.0 <= 0 && 1 <= m.1 <= 3 && m.2 == k + 2
    ensures d + s <= h + L ==> m == (d + s, s, k)
  {
    if d + s > h + L then (-Mod(rand(k), h / 2), 1 + Mod(rand(k + 1), 3), k + 2)
    else (d + s, s, k)
  }

  /** The next unused draw after the columns cs, starting from draw k. */
  function After(k: nat, cs: seq<Column>): nat
  {
    if cs == [] then k else cs[|cs| - 1].next
  }

  /** The columns of one tick, left to right; each column takes its draws after the previous one's. */
  function Columns(rand: nat -> nat, k: nat, h: int, L: nat, rainbow: bool, drops: seq<int>, speeds: seq<int>): (cs: seq<Column>)
    requires |drops| == |speeds| && h >= 2
    ensures |cs| == |drops|
    decreases |drops|
  {
    if drops == [] then []
    else
      var n := |drops| - 1;
      var prev := Columns(rand, k, h, L, rainbow, drops[..n], speeds[..n]);
      prev + [StepColumn(rand, After(k, prev), h, L, rainbow, drops[n], speeds[n])]
  }

  /** Every column of a tick is stepped from its own drop and speed. */
  lemma {:induction false} ColumnsStepped(rand: nat -> nat, k: nat, h: int, L: nat, rainbow: bool, drops: seq<int>, speeds: seq<int>)
    requires |drops| == |speeds| && h >= 2
    ensures var cs := Columns(rand, k, h, L, rainbow, drops, speeds);
      forall x :: 0 <= x < |cs| ==> Stepped(cs[x], h, L, drops[x], speeds[x], rainbow)
    decreases |drops|
  {
    if drops != [] {
      var n := |drops| - 1;
      ColumnsStepped(rand, k, h, L, rainbow, drops[..n], speeds[..n]);
      var prev := Columns(rand, k, h, L, rainbow, drops[..n], speeds[..n]);
      var cs := Columns(rand, k, h, L, rainbow, drops, speeds);
      assert cs == prev + [StepColumn(rand, After(k, prev), h, L, rainbow, drops[n], speeds[n])];
      forall x | 0 <= x < |cs|
        ensures Stepped(cs[x], h, L, drops[x], speeds[x], rainbow)
      {
        if x < n {
          assert cs[x] == prev[x] && drops[..n][x] == drops[x] && speeds[..n][x] == speeds[x];
        }
      }
    }
  }

  function CellOf(c: Column, y: int): Cell
  {
    if y in c.trail then c.trail[y] else Blank
  }

  /** The buffer after a tick: every cell blank except the painted trail cells. */
  function Painted(cs: seq<Column>, h: int, w: int): (g: Grid)
    requires h >= 0 && w == |cs|
    ensures Shaped(g, h, w)
    ensures forall y, x :: 0 <= y < h && 0 <= x < w && y in cs[x].trail ==> g[y][x] == cs[x].trail[y]
    ensures forall y, x :: 0 <= y < h && 0 <= x < w && y !in cs[x].trail ==> g[y][x] == Blank
  {
    seq(h, y => seq(w, x requires 0 <= x < w => CellOf(cs[x], y)))
  }

  // ---------------------------------------------------------------- the engine state

  /** The engine's state: dimensions, trail length, mode, buffer, drops and speeds, and the draws taken. */
  datatype Rain = Rain(width: int, height: int, trailLength: nat, rainbow: bool,
                       screen: Grid, drops: seq<int>, speeds: seq<int>, cursor: nat)

  predicate SizeOk(size: (int, int))
  {
    size.0 >= 0 && size.1 >= 1
  }

  predicate Shaped(g: Grid, h: int, w: int)
  {
    |g| == h && forall y :: 0 <= y < h ==> |g[y]| == w
  }

  /** A cell either mode can hold: a level 0..4, a palette index (0 in green mode), a glyph or a space. */
  predicate CellOk(c: Cell, rainbow: bool)
  {
    && 0 <= c.intensity <= 4
    && (if rainbow then 0 <= c.color < 7 else c.color == 0)
    && (c.character == ' ' || IsGlyph(c.character))
  }

  /**
   * The invariant the engine keeps: the buffer is height x width, there is one drop and
   * one speed per column, the trail length is the step value for the height, speeds are
   * 1..3, head rows lie between -(height-1) and height + trailLength, and every cell is
   * well formed.
   */
  ghost predicate Inv(s: Rain)
  {
    && SizeOk((s.width, s.height))
    && s.trailLength == TrailLength(s.height)
    && Shaped(s.screen, s.height, s.width)
    && |s.drops| == s.width && |s.speeds| == s.width
    && (forall x :: 0 <= x < s.width ==> 1 <= s.speeds[x] <= 3)
    && (forall x :: 0 <= x < s.width ==> -(s.height - 1) <= s.drops[x] <= s.height + s.trailLength)
    && (forall y, x :: 0 <= y < s.height && 0 <= x < s.width ==> CellOk(s.screen[y][x], s.rainbow))
  }

  function BlankGrid(h: int, w: int): (g: Grid)
    requires h >= 0 && w >= 0
    ensures Shaped(g, h, w) && forall y, x :: 0 <= y < h && 0 <= x < w ==> g[y][x] == Blank
  {
    seq(h, _ => seq(w, _ => Blank))
  }

  /** The head row initializeScreen gives column x: minus draw 2x (from draw k on) modulo the height. */
  function SpawnRow(rand: nat -> nat, k: nat, h: int, x: nat): (r: int)
    requires h > 0
    ensures -(h - 1) <= r <= 0
  {
    -Mod(rand(k + 2 * x), h)
  }

  /** The speed initializeScreen gives column x: 1 plus draw 2x + 1 (from draw k on) modulo 3. */
  function SpawnSpeed(rand: nat -> nat, k: nat, x: nat): (r: int)
    ensures 1 <= r <= 3
  {
    1 + Mod(rand(k + 2 * x + 1), 3)
  }

  /**
   * initializeScreen: a blank height x width buffer, and for column x a head row from
   * draw 2x and a speed from draw 2x+1 (counted from the cursor).
   */
  function Initialize(rand: nat -> nat, s: Rain): (t: Rain)
    requires SizeOk((s.width, s.height))
    ensures Shaped(t.screen, s.height, s.width) && |t.drops| == s.width && |t.speeds| == s.width
    ensures forall y, x :: 0 <= y < s.height && 0 <= x < s.width ==> t.screen[y][x] == Blank
    ensures forall x :: 0 <= x < s.width ==> -(s.height - 1) <= t.drops[x] <= 0 && 1 <= t.speeds[x] <= 3
    ensures (t.width, t.height, t.trailLength, t.rainbow) == (s.width, s.height, s.trailLength, s.rainbow)
    ensures t.cursor == s.cursor + 2 * s.width
  {
    s.(screen := BlankGrid(s.height, s.width),
       drops := seq(s.width, x requires 0 <= x => SpawnRow(rand, s.cursor, s.height, x)),
       speeds := seq(s.width, x requires 0 <= x => SpawnSpeed(rand, s.cursor, x)),
       cursor := s.cursor + 2 * s.width)
  }

  /** The engine as its constructor builds it for mode rainbow and the answer of the size query. */
  function Initial(rand: nat -> nat, query: Option<(int, int)>, rainbow: bool): (t: Rain)
    requires SizeOk(TerminalSize(query))
    ensures Inv(t)
  {
    var (w, h) := TerminalSize(query);
    Initialize(rand, Rain(w, h, TrailLength(h), rainbow, [], [], [], 0))
  }

  /** update: one tick of every column. */
  function Tick(rand: nat -> nat, s: Rain): (t: Rain)
    requires Inv(s) && s.height >= 2
    ensures Inv(t)
    ensures (t.width, t.height, t.trailLength, t.rainbow) == (s.width, s.height, s.trailLength, s.rainbow)
  {
    var cs := Columns(rand, s.cursor, s.height, s.trailLength, s.rainbow, s.drops, s.speeds);
    var t := Advanced(s, cs);
    ColumnsStepped(rand, s.cursor, s.height, s.trailLength, s.rainbow, s.drops, s.speeds);
    AdvancedInv(s, cs);
    t
  }

  /** The state after a tick whose columns are cs. */
  function Advanced(s: Rain, cs: seq<Column>): Rain
    requires s.height >= 0 && |cs| == s.width
  {
    s.(screen := Painted(cs, s.height, s.width),
       drops := seq(s.width, x requires 0 <= x < s.width => cs[x].drop),
       speeds := seq(s.width, x requires 0 <= x < s.width => cs[x].speed),
       cursor := After(s.cursor, cs))
  }

  lemma AdvancedInv(s: Rain, cs: seq<Column>)
    requires Inv(s) && s.height >= 2 && |cs| == s.width
    requires forall x :: 0 <= x < |cs| ==> Stepped(cs[x], s.height, s.trailLength, s.drops[x], s.speeds[x], s.rainbow)
    ensures Inv(Advanced(s, cs))
  {
    var t := Advanced(s, cs);
    var h, L := s.height, s.trailLength;
    forall y, x | 0 <= y < h && 0 <= x < s.width
      ensures CellOk(t.screen[y][x], s.rainbow)
    {
      assert t.screen[y][x] == CellOf(cs[x], y);
      if y in cs[x].trail {
        assert Banded(cs[x].trail[y], L, s.drops[x] - y, s.rainbow);
      }
    }
    forall x | 0 <= x < s.width
      ensures 1 <= t.speeds[x] <= 3 && -(h - 1) <= t.drops[x] <= h + L
    {
      assert Stepped(cs[x], h, L, s.drops[x], s.speeds[x], s.rainbow);
    }
  }

  // ---------------------------------------------------------------- update, column by column

  /**
   * Part way through update's column loop: columns [0, x) painted and moved, the rest still
   * blank and unmoved, and the draws of the first x columns taken.
   */
  function Partial(rand: nat -> nat, s: Rain, x: nat): (p: Rain)
    requires s.height >= 2 && s.width >= 0 && |s.drops| == s.width && |s.speeds| == s.width && x <= s.width
    ensures Shaped(p.screen, s.height, s.width) && |p.drops| == s.width && |p.speeds| == s.width
    ensures (p.width, p.height, p.trailLength, p.rainbow) == (s.width, s.height, s.trailLength, s.rainbow)
    ensures x < s.width ==> forall y :: 0 <= y < s.height ==> p.screen[y][x] == Blank
  {
    var cs := Columns(rand, s.cursor, s.height, s.trailLength, s.rainbow, s.drops[..x], s.speeds[..x]);
    s.(screen := seq(s.height, y => seq(s.width, j requires 0 <= j < s.width => if j < x then CellOf(cs[j], y) else Blank)),
       drops := seq(s.width, j requires 0 <= j < s.width => if j < x then cs[j].drop else s.drops[j]),
       speeds := seq(s.width, j requires 0 <= j < s.width => if j < x then cs[j].speed else s.speeds[j]),
       cursor := After(s.cursor, cs))
  }

  /** Buffer g with the cells of trail m written into column x. */
  function WithTrail(g: Grid, x: int, m: map<int, Cell>): (r: Grid)
    ensures |r| == |g| && forall y :: 0 <= y < |g| ==> |r[y]| == |g[y]|
  {
    seq(|g|, y requires 0 <= y < |g| =>
      seq(|g[y]|, j requires 0 <= j < |g[y]| => if j == x && y in m then m[y] else g[y][j]))
  }

  /** An empty trail changes nothing. */
  lemma WithNoTrail(g: Grid, x: int)
    ensures WithTrail(g, x, map[]) == g
  {
    var r := WithTrail(g, x, map[]);
    forall y | 0 <= y < |g|
      ensures r[y] == g[y]
    {
    }
  }

  /** Writing cell c at row y of column x adds (y, c) to the trail written there. */
  lemma WithTrailAdd(g: Grid, x: int, m: map<int, Cell>, y: int, c: Cell)
    requires 0 <= y < |g| && 0 <= x < |g[y]|
    ensures var r := WithTrail(g, x, m);
      r[y := r[y][x := c]] == WithTrail(g, x, m[y := c])
  {
    var r := WithTrail(g, x, m);
    var r' := WithTrail(g, x, m[y := c]);
    forall z | 0 <= z < |g|
      ensures r[y := r[y][x := c]][z] == r'[z]
    {
    }
  }

  /**
   * Buffer g and draw k after the first n passes of the trail loop of column x, written the
   * way the loop writes: pass i paints row d - i in place when that row lies on the buffer.
   */
  function Painting(rand: nat -> nat, k: nat, d: int, L: nat, h: int, rainbow: bool,
                    g: Grid, w: int, x: int, n: nat): (r: (Grid, nat))
    requires Shaped(g, h, w) && 0 <= x < w
    ensures Shaped(r.0, h, w)
    decreases n
  {
    if n == 0 then (g, k)
    else
      var (g1, k1) := Painting(rand, k, d, L, h, rainbow, g, w, x, n - 1);
      var y := d - (n - 1);
      if 0 <= y < h then
        var p := PaintCell(rand, k1, L, n - 1, rainbow);
        (g1[y := g1[y][x := p.0]], p.1)
      else (g1, k1)
  }

  /** The passes so far have not written the rows above the current offset's row. */
  lemma {:induction false} PaintingUntouched(rand: nat -> nat, k: nat, d: int, L: nat, h: int, rainbow: bool,
                                             g: Grid, w: int, x: int, n: nat, y: int)
    requires Shaped(g, h, w) && 0 <= x < w && 0 <= y < h && y <= d - n
    ensures Painting(rand, k, d, L, h, rainbow, g, w, x, n).0[y][x] == g[y][x]
    decreases n
  {
    if n > 0 {
      PaintingUntouched(rand, k, d, L, h, rainbow, g, w, x, n - 1, y);
    }
  }

  /** The first n passes of the trail loop leave the first n offsets of the trail written into column x. */
  ghost predicate PaintsTrail(rand: nat -> nat, k: nat, d: int, L: nat, h: int, rainbow: bool,
                              g: Grid, w: int, x: int, n: nat)
    requires Shaped(g, h, w) && 0 <= x < w
  {
    var t := Trail(rand, k, d, L, h, rainbow, n);
    Painting(rand, k, d, L, h, rainbow, g, w, x, n) == (WithTrail(g, x, t.0), t.1)
  }

  /** The loop's in-place writes leave exactly the trail written into column x. */
  lemma {:induction false} PaintingTrail(rand: nat -> nat, k: nat, d: int, L: nat, h: int, rainbow: bool,
                                         g: Grid, w: int, x: int, n: nat)
    requires Shaped(g, h, w) && 0 <= x < w
    ensures PaintsTrail(rand, k, d, L, h, rainbow, g, w, x, n)
    decreases n
  {
    if n == 0 {
      PaintingNone(rand, k, d, L, h, rainbow, g, w, x);
    } else {
      PaintingTrail(rand, k, d, L, h, rainbow, g, w, x, n - 1);
      PaintingStep(rand, k, d, L, h, rainbow, g, w, x, n - 1);
    }
  }

  /** Before the trail loop nothing is painted and no draw is taken. */
  lemma PaintingNone(rand: nat -> nat, k: nat, d: int, L: nat, h: int, rainbow: bool,
                     g: Grid, w: int, x: int)
    requires Shaped(g, h, w) && 0 <= x < w
    ensures PaintsTrail(rand, k, d, L, h, rainbow, g, w, x, 0)
  {
    WithNoTrail(g, x);
  }

  /** One pass of the trail loop extends the painted trail by one offset. */
  lemma PaintingStep(rand: nat -> nat, k: nat, d: int, L: nat, h: int, rainbow: bool,
                     g: Grid, w: int, x: int, n: nat)
    requires Shaped(g, h, w) && 0 <= x < w
    requires PaintsTrail(rand, k, d, L, h, rainbow, g, w, x, n)
    ensures PaintsTrail(rand, k, d, L, h, rainbow, g, w, x, n + 1)
  {
    TrailNext(rand, k, d, L, h, rainbow, n);
    var t := Trail(rand, k, d, L, h, rainbow, n);
    if 0 <= d - n < h {
      WithTrailAdd(g, x, t.0, d - n, PaintCell(rand, t.1, L, n, rainbow).0);
    }
  }

  /** One pass of the column loop on state p: column x's trail painted on its blank column, its drop moved or respawned. */
  function StepAt(rand: nat -> nat, p: Rain, x: int): Rain
    requires p.height >= 2 && Shaped(p.screen, p.height, p.width)
    requires 0 <= x < p.width && |p.drops| == p.width && |p.speeds| == p.width
  {
    var c := StepColumn(rand, p.cursor, p.height, p.trailLength, p.rainbow, p.drops[x], p.speeds[x]);
    p.(screen := WithTrail(p.screen, x, c.trail),
       drops := p.drops[x := c.drop],
       speeds := p.speeds[x := c.speed],
       cursor := c.next)
  }

  /**
   * One pass of the column loop touches column x only: the other columns of the buffer,
   * the other drops and speeds, the size and the mode are unchanged, and drop x moves by
   * its speed or, past row height + trailLength, respawns at -(height/2 - 1)..0 with speed 1..3.
   */
  lemma StepAtColumn(rand: nat -> nat, p: Rain, x: int)
    requires p.height >= 2 && Shaped(p.screen, p.height, p.width)
    requires 0 <= x < p.width && |p.drops| == p.width && |p.speeds| == p.width
    ensures var t := StepAt(rand, p, x);
      && (t.width, t.height, t.trailLength, t.rainbow) == (p.width, p.height, p.trailLength, p.rainbow)
      && Shaped(t.screen, p.height, p.width) && |t.drops| == p.width && |t.speeds| == p.width
      && (forall y, j :: 0 <= y < p.height && 0 <= j < p.width && j != x ==> t.screen[y][j] == p.screen[y][j])
      && (forall j :: 0 <= j < p.width && j != x ==> t.drops[j] == p.drops[j] && t.speeds[j] == p.speeds[j])
      && if p.drops[x] + p.speeds[x] > p.height + p.trailLength
         then -(p.height / 2 - 1) <= t.drops[x] <= 0 && 1 <= t.speeds[x] <= 3
         else t.drops[x] == p.drops[x] + p.speeds[x] && t.speeds[x] == p.speeds[x]
  {
  }

  /** Before the column loop: the blanked buffer and nothing else changed. */
  lemma PartialStart(rand: nat -> nat, s: Rain)
    requires s.height >= 2 && s.width >= 0 && |s.drops| == s.width && |s.speeds| == s.width
    ensures Partial(rand, s, 0) == s.(screen := BlankGrid(s.height, s.width))
  {
    var p := Partial(rand, s, 0);
    assert p.drops == s.drops && p.speeds == s.speeds;
    assert p.screen == BlankGrid(s.height, s.width) by {
      forall y | 0 <= y < s.height
        ensures p.screen[y] == BlankGrid(s.height, s.width)[y]
      {
      }
    }
  }

  /** The columns of x + 1 drops are those of the first x, then the next column, its draws after theirs. */
  lemma ColumnsNext(rand: nat -> nat, k: nat, h: int, L: nat, rainbow: bool, drops: seq<int>, speeds: seq<int>, x: nat)
    requires |drops| == |speeds| && h >= 2 && x < |drops|
    ensures var cs := Columns(rand, k, h, L, rainbow, drops[..x], speeds[..x]);
      Columns(rand, k, h, L, rainbow, drops[..x + 1], speeds[..x + 1])
        == cs + [StepColumn(rand, After(k, cs), h, L, rainbow, drops[x], speeds[x])]
  {
    assert drops[..x + 1][..x] == drops[..x] && speeds[..x + 1][..x] == speeds[..x];
  }

  /** Each pass of the column loop takes Partial from x columns to x + 1. */
  lemma PartialNext(rand: nat -> nat, s: Rain, x: nat)
    requires s.height >= 2 && s.width >= 0 && |s.drops| == s.width && |s.speeds| == s.width && x < s.width
    ensures Partial(rand, s, x + 1) == StepAt(rand, Partial(rand, s, x), x)
  {
    PartialNextMoves(rand, s, x);
    PartialNextScreen(rand, s, x);
  }

  /** The drops, speeds and draws of one pass. */
  lemma PartialNextMoves(rand: nat -> nat, s: Rain, x: nat)
    requires s.height >= 2 && s.width >= 0 && |s.drops| == s.width && |s.speeds| == s.width && x < s.width
    ensures var q, t := Partial(rand, s, x + 1), StepAt(rand, Partial(rand, s, x), x);
      q.drops == t.drops && q.speeds == t.speeds && q.cursor == t.cursor
  {
    var q, t := Partial(rand, s, x + 1), StepAt(rand, Partial(rand, s, x), x);
    ColumnsNext(rand, s.cursor, s.height, s.trailLength, s.rainbow, s.drops, s.speeds, x);
    forall j | 0 <= j < s.width
      ensures q.drops[j] == t.drops[j] && q.speeds[j] == t.speeds[j]
    {
      PartialNextMove(rand, s, x, j);
    }
  }

  /** The drop and speed of column j after one pass. */
  lemma PartialNextMove(rand: nat -> nat, s: Rain, x: nat, j: int)
    requires s.height >= 2 && s.width >= 0 && |s.drops| == s.width && |s.speeds| == s.width && x < s.width
    requires 0 <= j < s.width
    ensures var q, t := Partial(rand, s, x + 1), StepAt(rand, Partial(rand, s, x), x);
      q.drops[j] == t.drops[j] && q.speeds[j] == t.speeds[j]
  {
    var k, h, L, rb := s.cursor, s.height, s.trailLength, s.rainbow;
    ColumnsNext(rand, k, h, L, rb, s.drops, s.speeds, x);
    if j < x {
      var cs := Columns(rand, k, h, L, rb, s.drops[..x], s.speeds[..x]);
      var cs1 := Columns(rand, k, h, L, rb, s.drops[..x + 1], s.speeds[..x + 1]);
      assert cs1[j] == cs[j];
    }
  }

  /** The buffer of one pass. */
  lemma PartialNextScreen(rand: nat -> nat, s: Rain, x: nat)
    requires s.height >= 2 && s.width >= 0 && |s.drops| == s.width && |s.speeds| == s.width && x < s.width
    ensures Partial(rand, s, x + 1).screen == StepAt(rand, Partial(rand, s, x), x).screen
  {
    var q, t := Partial(rand, s, x + 1), StepAt(rand, Partial(rand, s, x), x);
    forall y | 0 <= y < s.height
      ensures q.screen[y] == t.screen[y]
    {
      forall j | 0 <= j < s.width
        ensures q.screen[y][j] == t.screen[y][j]
      {
        PartialNextCell(rand, s, x, y, j);
      }
    }
  }

  /** One cell of the buffer of one pass. */
  lemma PartialNextCell(rand: nat -> nat, s: Rain, x: nat, y: int, j: int)
    requires s.height >= 2 && s.width >= 0 && |s.drops| == s.width && |s.speeds| == s.width && x < s.width
    requires 0 <= y < s.height && 0 <= j < s.width
    ensures Partial(rand, s, x + 1).screen[y][j] == StepAt(rand, Partial(rand, s, x), x).screen[y][j]
  {
    var k, h, L, rb := s.cursor, s.height, s.trailLength, s.rainbow;
    ColumnsNext(rand, k, h, L, rb, s.drops, s.speeds, x);
    var cs := Columns(rand, k, h, L, rb, s.drops[..x], s.speeds[..x]);
    var cs1 := Columns(rand, k, h, L, rb, s.drops[..x + 1], s.speeds[..x + 1]);
    var p := Partial(rand, s, x);
    var q, t := Partial(rand, s, x + 1), StepAt(rand, p, x);
    var c := StepColumn(rand, p.cursor, h, L, rb, p.drops[x], p.speeds[x]);
    assert t.screen[y][j] == if j == x && y in c.trail then c.trail[y] else p.screen[y][j];
    if j < x {
      assert cs1[j] == cs[j];
      assert q.screen[y][j] == CellOf(cs[j], y) == p.screen[y][j];
    } else if j == x {
      assert p.drops[x] == s.drops[x] && p.speeds[x] == s.speeds[x] && p.cursor == After(k, cs);
      assert cs1[x] == c;
      assert q.screen[y][j] == CellOf(c, y);
    } else {
      assert q.screen[y][j] == Blank == p.screen[y][j];
    }
  }

  /** After the column loop: the tick of the whole buffer. */
  lemma PartialEnd(rand: nat -> nat, s: Rain)
    requires s.height >= 2 && s.width >= 0 && |s.drops| == s.width && |s.speeds| == s.width
    ensures Partial(rand, s, s.width) ==
      Advanced(s, Columns(rand, s.cursor, s.height, s.trailLength, s.rainbow, s.drops, s.speeds))
  {
    assert s.drops[..s.width] == s.drops && s.speeds[..s.width] == s.speeds;
    var cs := Columns(rand, s.cursor, s.height, s.trailLength, s.rainbow, s.drops, s.speeds);
    var p := Partial(rand, s, s.width);
    var t := Advanced(s, cs);
    assert p.cursor == t.cursor;
    assert p.drops == t.drops;
    assert p.speeds == t.speeds;
    assert p.screen == t.screen by {
      forall y | 0 <= y < s.height
        ensures p.screen[y] == t.screen[y]
      {
      }
    }
  }

  // ---------------------------------------------------------------- terminal size

  /** getTerminalSize: the answer of the query, or 80 x 24 when the query fails. */
  function TerminalSize(query: Option<(int, int)>): (int, int)
  {
    match query
    case Some(size) => size
    case None => (80, 24)
  }

  /** ESC [2J ESC [H: erase the display and move the cursor home. */
  const ClearText: string := Csi + "2J" + Csi + "H"

  /** ESC [H: cursor home (CUP with default parameters). */
  const Home: string := Csi + "H"

  /** ESC [0m: default rendition. */
  const Reset: string := Sequence([0])

  /** updateTerminalSize: on a size that differs from the recorded one, recompute the trail length and reinitialize. */
  function Resync(rand: nat -> nat, s: Rain, query: Option<(int, int)>): (t: Rain)
    requires Inv(s) && SizeOk(TerminalSize(query))
    ensures Inv(t) && (t.width, t.height) == TerminalSize(query) && t.rainbow == s.rainbow
  {
    var (w, h) := TerminalSize(query);
    if w == s.width && h == s.height then s
    else Initialize(rand, s.(width := w, height := h, trailLength := TrailLength(h)))
  }

  /** What updateTerminalSize writes: the clear sequence, after a resize only. */
  function ResyncText(s: Rain, query: Option<(int, int)>): string
  {
    if TerminalSize(query) == (s.width, s.height) then "" else ClearText
  }

  // ---------------------------------------------------------------- one frame of text

  /** Cells render can write. */
  predicate Renderable(rows: Grid, rainbow: bool)
  {
    forall y, x :: 0 <= y < |rows| && 0 <= x < |rows[y]| ==> ColorOk(rainbow, rows[y][x].intensity, rows[y][x].color)
  }

  /** One cell slot: a space for an invisible cell, otherwise its colour, its glyph and a reset. */
  function CellText(c: Cell, rainbow: bool): string
    requires ColorOk(rainbow, c.intensity, c.color)
  {
    if c.intensity > 0 then ColorSequence(rainbow, c.intensity, c.isBold, c.color) + [c.character] + Reset else " "
  }

  function RowText(row: seq<Cell>, rainbow: bool): string
    requires forall x :: 0 <= x < |row| ==> ColorOk(rainbow, row[x].intensity, row[x].color)
    decreases |row|
  {
    if row == [] then "" else RowText(row[..|row| - 1], rainbow) + CellText(row[|row| - 1], rainbow)
  }

  function RowsText(rows: Grid, rainbow: bool): string
    requires Renderable(rows, rainbow)
    decreases |rows|
  {
    if rows == [] then "" else RowsText(rows[..|rows| - 1], rainbow) + RowText(rows[|rows| - 1], rainbow) + "\n"
  }

  /** One more offset of the trail: row d - n is painted when it lies on the buffer. */
  lemma TrailNext(rand: nat -> nat, k: nat, d: int, L: nat, h: int, rainbow: bool, n: nat)
    ensures var t := Trail(rand, k, d, L, h, rainbow, n);
      Trail(rand, k, d, L, h, rainbow, n + 1) ==
        if 0 <= d - n < h then
          var p := PaintCell(rand, t.1, L, n, rainbow);
          (t.0[d - n := p.0], p.1)
        else t
  {
  }

  /** Concatenation regroups; the loops that append output use it. */
  lemma AppendAssoc<T>(a: seq<T>, b: seq<T>, c: seq<T>)
    ensures a + b + c == a + (b + c)
  {
  }

  /** Appending one cell to a row appends its text. */
  lemma RowTextSnoc(row: seq<Cell>, x: nat, rainbow: bool)
    requires x < |row| && forall j :: 0 <= j < |row| ==> ColorOk(rainbow, row[j].intensity, row[j].color)
    ensures RowText(row[..x + 1], rainbow) == RowText(row[..x], rainbow) + CellText(row[x], rainbow)
  {
    assert row[..x + 1][..x] == row[..x];
  }

  /** Appending one row to the rows appends its text and a newline. */
  lemma RowsTextSnoc(rows: Grid, y: nat, rainbow: bool)
    requires y < |rows| && Renderable(rows, rainbow)
    ensures RowsText(rows[..y + 1], rainbow) == RowsText(rows[..y], rainbow) + RowText(rows[y], rainbow) + "\n"
  {
    assert rows[..y + 1][..y] == rows[..y];
  }

  /** Output that holds the text of the first y rows, extended by row y and a newline, holds the first y + 1. */
  lemma RowsTextExtend(start: string, before: string, rows: Grid, y: nat, rainbow: bool)
    requires y < |rows| && Renderable(rows, rainbow) && before == start + RowsText(rows[..y], rainbow)
    ensures before + RowText(rows[y], rainbow) + "\n" == start + RowsText(rows[..y + 1], rainbow)
  {
    RowsTextSnoc(rows, y, rainbow);
    AppendAssoc(start, RowsText(rows[..y], rainbow), RowText(rows[y], rainbow) + "\n");
    AppendAssoc(RowsText(rows[..y], rainbow), RowText(rows[y], rainbow), "\n");
    AppendAssoc(before, RowText(rows[y], rainbow), "\n");
  }

  /** render: cursor home, then rows 0..height-2, each followed by a newline; the last row is not written. */
  function FrameText(screen: Grid, height: int, rainbow: bool): string
    requires 1 <= height <= |screen| && Renderable(screen, rainbow)
  {
    Home + RowsText(screen[..height - 1], rainbow)
  }

  // ---------------------------------------------------------------- the animation loop

  /** ESC [?25l: hide the cursor. */
  const HideText: string := Csi + "?25l"

  /** ESC [?25h: show the cursor. */
  const ShowText: string := Csi + "?25h"

  /** The number of frames run animates. */
  const FrameCount: nat := 1000

  /** The frames on which run asks the terminal for its size: every fiftieth, starting with the first. */
  predicate Checked(f: nat)
  {
    f % 50 == 0
  }

  /** A size answer run can cope with: a respawn needs at least two rows. */
  predicate ResizeOk(query: Option<(int, int)>)
  {
    SizeOk(TerminalSize(query)) && TerminalSize(query).1 >= 2
  }

  /** Size answers the first n frames can cope with, on the frames that ask. */
  predicate SizesOk(sizes: nat -> Option<(int, int)>, n: nat)
  {
    forall f: nat :: f < n && Checked(f) ==> ResizeOk(sizes(f))
  }

  /**
   * Frame f of run: on a checked frame the size answer sizes(f) may resize the engine and
   * clear the display; then one tick and one rendered frame. Returns the new state and the text.
   */
  function Frame(rand: nat -> nat, s: Rain, sizes: nat -> Option<(int, int)>, f: nat): (r: (Rain, string))
    requires Inv(s) && if Checked(f) then ResizeOk(sizes(f)) else s.height >= 2
    ensures Inv(r.0) && r.0.height >= 2 && r.0.rainbow == s.rainbow
  {
    var s2 := Tick(rand, Checkpoint(rand, s, sizes, f));
    (s2, CheckpointText(s, sizes, f) + FrameText(s2.screen, s2.height, s2.rainbow))
  }

  /** The state after frame f's size check: a resync on a checked frame, otherwise s itself. */
  function Checkpoint(rand: nat -> nat, s: Rain, sizes: nat -> Option<(int, int)>, f: nat): (t: Rain)
    requires Inv(s) && if Checked(f) then ResizeOk(sizes(f)) else s.height >= 2
    ensures Inv(t) && t.height >= 2 && t.rainbow == s.rainbow
  {
    if Checked(f) then Resync(rand, s, sizes(f)) else s
  }

  /** The text of frame f's size check. */
  function CheckpointText(s: Rain, sizes: nat -> Option<(int, int)>, f: nat): string
  {
    if Checked(f) then ResyncText(s, sizes(f)) else ""
  }

  /** The first n frames of run from state s: the state they leave and the text they write. */
  function Frames(rand: nat -> nat, s: Rain, sizes: nat -> Option<(int, int)>, n: nat): (r: (Rain, string))
    requires Inv(s) && SizesOk(sizes, n)
    ensures Inv(r.0) && (n > 0 ==> r.0.height >= 2) && r.0.rainbow == s.rainbow
    decreases n
  {
    if n == 0 then (s, "")
    else
      var p := Frames(rand, s, sizes, n - 1);
      var q := Frame(rand, p.0, sizes, n - 1);
      (q.0, p.1 + q.1)
  }

  /** What run writes around its frames: clear and hide the cursor before, show it, reset and clear after. */
  function RunText(frames: string): string
  {
    ClearText + HideText + frames + ShowText + Reset + ClearText
  }

  /** The text run writes, regrouped as its loop appends it. */
  lemma RunTextAppend(before: string, frames: string)
    ensures before + ClearText + HideText + frames + ShowText + Reset + ClearText == before + RunText(frames)
  {
  }
}
