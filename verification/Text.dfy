/** Text in the classic 6x8 font: Adafruit_GFX's write and drawChar, which print,
    and charBounds and getTextBounds, which predict what printing will cover. */
module Text {
  import opened CInts
  import opened Bytes

  const NEWLINE: uint8 := 10
  const RETURN: uint8 := 13

  // --------------------------------------------------------------- layout

  /** What layout depends on: the width of the screen, the wrap setting, and the
      size of a character cell. */
  datatype Metrics = Metrics(width: int, wrap: bool, cw: nat, ch: nat)

  datatype Cursor = Cursor(x: int, y: int)

  /** Where the next character goes, once the line has wrapped if it must. */
  function Wrapped(m: Metrics, at: Cursor): Cursor {
    if m.wrap && at.x + m.cw > m.width then Cursor(0, at.y + m.ch) else at
  }

  function Next(m: Metrics, at: Cursor, c: uint8): Cursor {
    if c == NEWLINE then Cursor(0, at.y + m.ch)
    else if c == RETURN then at
    else Cursor(Wrapped(m, at).x + m.cw, Wrapped(m, at).y)
  }

  /** The cell a character takes up, if it takes up any. */
  function CellsOf(m: Metrics, at: Cursor, c: uint8): seq<Cursor> {
    if c == NEWLINE || c == RETURN then [] else [Wrapped(m, at)]
  }

  function After(m: Metrics, from: Cursor, str: seq<uint8>): Cursor {
    if str == [] then from else Next(m, After(m, from, str[..|str| - 1]), str[|str| - 1])
  }

  /** The cells a string takes up, in order. */
  function Cells(m: Metrics, from: Cursor, str: seq<uint8>): seq<Cursor> {
    if str == [] then [] else
    var head := str[..|str| - 1];
    Cells(m, from, head) + CellsOf(m, After(m, from, head), str[|str| - 1])
  }

  lemma OneMore(m: Metrics, from: Cursor, str: seq<uint8>, i: nat)
    requires i < |str|
    ensures After(m, from, str[..i + 1]) == Next(m, After(m, from, str[..i]), str[i])
    ensures Cells(m, from, str[..i + 1]) == Cells(m, from, str[..i]) + CellsOf(m, After(m, from, str[..i]), str[i])
  {
    assert str[..i + 1][..i] == str[..i];
  }

  /** A line feed starts a line one cell lower, a carriage return does nothing,
      and any other character takes the cell at the cursor, or at the start of
      the next line when that one would stick out; if a cell fits the width at
      all, no wrapped text sticks out. */
  lemma LayoutStep(m: Metrics, at: Cursor, c: uint8)
    ensures c == 10 ==> CellsOf(m, at, c) == [] && Next(m, at, c) == Cursor(0, at.y + m.ch)
    ensures c == 13 ==> CellsOf(m, at, c) == [] && Next(m, at, c) == at
    ensures c != 10 && c != 13 ==>
              && |CellsOf(m, at, c)| == 1
              && var cell := CellsOf(m, at, c)[0];
              && cell == (if m.wrap && m.width < at.x + m.cw then Cursor(0, at.y + m.ch) else at)
              && Next(m, at, c) == Cursor(cell.x + m.cw, cell.y)
              && (m.wrap && m.cw <= m.width ==> cell.x + m.cw <= m.width)
  {
  }

  /** One cell comes before another: on the same line left of it, or on a line
      above. */
  predicate Precedes(m: Metrics, a: Cursor, b: Cursor) {
    a.y + m.ch <= b.y || (a.y == b.y && a.x + m.cw <= b.x)
  }

  lemma {:induction false} CellsPrecede(m: Metrics, from: Cursor, str: seq<uint8>)
    ensures forall k :: 0 <= k < |Cells(m, from, str)| ==> Precedes(m, Cells(m, from, str)[k], After(m, from, str))
  {
    if str != [] {
      CellsPrecede(m, from, str[..|str| - 1]);
    }
  }

  /** No two characters of a string overlap, and they follow one another in
      reading order. */
  lemma {:induction false} NoOverlap(m: Metrics, from: Cursor, str: seq<uint8>, k: nat, l: nat)
    requires k < l < |Cells(m, from, str)|
    ensures Precedes(m, Cells(m, from, str)[k], Cells(m, from, str)[l])
  {
    var head := str[..|str| - 1];
    if l < |Cells(m, from, head)| {
      NoOverlap(m, from, head, k, l);
    } else {
      CellsPrecede(m, from, head);
    }
  }

  // ---------------------------------------------------------------- glyphs

  /** One call of writeFillRect; writePixel fills a single pixel. */
  datatype Fill = Fill(x: int, y: int, w: int, h: int, color: int)

  /** A character as it is drawn: the glyph, colours and magnification. */
  datatype Glyph = Glyph(columns: seq<bv8>, color: int, bg: int, sx: nat, sy: nat)

  predicate Whole(g: Glyph) {
    |g.columns| == 5 && 0 < g.sx && 0 < g.sy
  }

  /** The block of bit j of column i: drawn when set, or when the background is. */
  function BlockFill(g: Glyph, x: int, y: int, i: nat, j: nat): seq<Fill>
    requires Whole(g) && i < 5 && j < 8
  {
    if Bit(g.columns[i], j) then [Fill(x + i * g.sx, y + j * g.sy, g.sx, g.sy, g.color)]
    else if g.bg != g.color then [Fill(x + i * g.sx, y + j * g.sy, g.sx, g.sy, g.bg)]
    else []
  }

  function ColumnFills(g: Glyph, x: int, y: int, i: nat, rows: nat): seq<Fill>
    requires Whole(g) && i < 5 && rows <= 8
  {
    if rows == 0 then [] else ColumnFills(g, x, y, i, rows - 1) + BlockFill(g, x, y, i, rows - 1)
  }

  function GlyphFills(g: Glyph, x: int, y: int, cols: nat): seq<Fill>
    requires Whole(g) && cols <= 5
  {
    if cols == 0 then [] else GlyphFills(g, x, y, cols - 1) + ColumnFills(g, x, y, cols - 1, 8)
  }

  /** All that drawChar draws, the sixth column of the background included. */
  function CharFills(g: Glyph, x: int, y: int): seq<Fill>
    requires Whole(g)
  {
    GlyphFills(g, x, y, 5) + if g.bg != g.color then [Fill(x + 5 * g.sx, y, g.sx, 8 * g.sy, g.bg)] else []
  }

  predicate InCell(f: Fill, x: int, y: int, cw: int, ch: int) {
    x <= f.x && f.x + f.w <= x + cw && y <= f.y && f.y + f.h <= y + ch
  }

  lemma {:induction false} ColumnInCell(g: Glyph, x: int, y: int, i: nat, rows: nat)
    requires Whole(g) && i < 5 && rows <= 8
    ensures forall f :: f in ColumnFills(g, x, y, i, rows) ==> InCell(f, x, y, 6 * g.sx, 8 * g.sy)
  {
    if rows > 0 {
      ColumnInCell(g, x, y, i, rows - 1);
      BlockInside(i, 5, g.sx);
      BlockInside(rows - 1, 8, g.sy);
    }
  }

  lemma BlockInside(i: nat, n: nat, s: nat)
    requires i < n
    ensures 0 <= i * s && i * s + s <= n * s
  {
    ProductMono(0, i, s);
    ProductMono(i + 1, n, s);
  }

  lemma {:induction false} GlyphInCell(g: Glyph, x: int, y: int, cols: nat)
    requires Whole(g) && cols <= 5
    ensures forall f :: f in GlyphFills(g, x, y, cols) ==> InCell(f, x, y, 6 * g.sx, 8 * g.sy)
  {
    if cols > 0 {
      GlyphInCell(g, x, y, cols - 1);
      ColumnInCell(g, x, y, cols - 1, 8);
    }
  }

  /** Nothing is drawn outside the character's cell. */
  lemma CharInCell(g: Glyph, x: int, y: int)
    requires Whole(g)
    ensures forall f :: f in CharFills(g, x, y) ==> InCell(f, x, y, 6 * g.sx, 8 * g.sy)
  {
    GlyphInCell(g, x, y, 5);
  }

  // ------------------------------------------------------- what it looks like

  datatype Seen = Untouched | Coloured(color: int)

  /** The colour a list of fills leaves at a pixel: that of the last to cover it. */
  function Shown(fills: seq<Fill>, u: int, v: int): Seen {
    if fills == [] then Untouched else
    var f := fills[|fills| - 1];
    if f.x <= u < f.x + f.w && f.y <= v < f.y + f.h then Coloured(f.color) else Shown(fills[..|fills| - 1], u, v)
  }

  lemma {:induction false} ShownConcat(a: seq<Fill>, b: seq<Fill>, u: int, v: int)
    ensures Shown(a + b, u, v) == if Shown(b, u, v).Untouched? then Shown(a, u, v) else Shown(b, u, v)
  {
    if b == [] {
      assert a + b == a;
    } else {
      assert (a + b)[..|a + b| - 1] == a + b[..|b| - 1];
      ShownConcat(a, b[..|b| - 1], u, v);
    }
  }

  /** Coordinate u is in band i, bands being s wide and counted from x. */
  predicate InBand(x: int, s: int, i: int, u: int) {
    x + i * s <= u < x + i * s + s
  }

  lemma OneBand(x: int, s: nat, i: int, j: int, u: int)
    requires InBand(x, s, i, u)
    ensures InBand(x, s, j, u) <==> i == j
  {
    if i < j {
      ProductMono(i + 1, j, s);
    } else if j < i {
      ProductMono(j + 1, i, s);
    }
  }

  /** What block (i, j) of a character is to show; column 5 has no bits. */
  function Wanted(columns: seq<bv8>, color: int, bg: int, i: int, j: int): Seen {
    if 0 <= i < |columns| && 0 <= j < 8 && Bit(columns[i], j) then Coloured(color)
    else if bg != color then Coloured(bg) else Untouched
  }

  lemma BlockShown(g: Glyph, x: int, y: int, i: nat, j: nat, u: int, v: int)
    requires Whole(g) && i < 5 && j < 8
    ensures Shown(BlockFill(g, x, y, i, j), u, v) ==
            if InBand(x, g.sx, i, u) && InBand(y, g.sy, j, v) then Wanted(g.columns, g.color, g.bg, i, j) else Untouched
  {
    assert |BlockFill(g, x, y, i, j)| <= 1;
  }

  lemma {:induction false} ColumnShown(g: Glyph, x: int, y: int, i: nat, rows: nat, j: nat, u: int, v: int)
    requires Whole(g) && i < 5 && rows <= 8 && j < 8 && InBand(y, g.sy, j, v)
    ensures Shown(ColumnFills(g, x, y, i, rows), u, v) ==
            if InBand(x, g.sx, i, u) && j < rows then Wanted(g.columns, g.color, g.bg, i, j) else Untouched
  {
    if rows > 0 {
      ColumnShown(g, x, y, i, rows - 1, j, u, v);
      ShownConcat(ColumnFills(g, x, y, i, rows - 1), BlockFill(g, x, y, i, rows - 1), u, v);
      BlockShown(g, x, y, i, rows - 1, u, v);
      OneBand(y, g.sy, j, rows - 1, v);
    }
  }

  lemma {:induction false} GlyphShown(g: Glyph, x: int, y: int, cols: nat, i: nat, j: nat, u: int, v: int)
    requires Whole(g) && cols <= 5 && j < 8 && InBand(x, g.sx, i, u) && InBand(y, g.sy, j, v)
    ensures Shown(GlyphFills(g, x, y, cols), u, v) ==
            if i < cols then Wanted(g.columns, g.color, g.bg, i, j) else Untouched
  {
    if cols > 0 {
      GlyphShown(g, x, y, cols - 1, i, j, u, v);
      LastColumnShown(g, x, y, cols - 1, i, j, u, v);
      ShownConcat(GlyphFills(g, x, y, cols - 1), ColumnFills(g, x, y, cols - 1, 8), u, v);
    }
  }

  lemma LastColumnShown(g: Glyph, x: int, y: int, c: nat, i: nat, j: nat, u: int, v: int)
    requires Whole(g) && c < 5 && j < 8 && InBand(x, g.sx, i, u) && InBand(y, g.sy, j, v)
    ensures Shown(ColumnFills(g, x, y, c, 8), u, v) ==
            if i == c then Wanted(g.columns, g.color, g.bg, i, j) else Untouched
  {
    ColumnShown(g, x, y, c, 8, j, u, v);
    OneBand(x, g.sx, i, c, u);
  }

  /** Block (i, j) of the cell at (x, y): bit j of column i, a set bit in the one
      colour and a clear one in the other, unless that is the same; and a sixth
      column with no bits. */
  ghost predicate ShowsChar(fills: seq<Fill>, columns: seq<bv8>, color: int, bg: int, sx: int, sy: int, x: int, y: int) {
    |columns| == 5 &&
    forall i, j, u, v :: 0 <= i < 6 && 0 <= j < 8 && InBand(x, sx, i, u) && InBand(y, sy, j, v) ==>
      Shown(fills, u, v) == if i < 5 && (columns[i] >> j) & 1 == 1 then Coloured(color)
                            else if bg != color then Coloured(bg) else Untouched
  }

  lemma CharShown(g: Glyph, x: int, y: int)
    requires Whole(g)
    ensures ShowsChar(CharFills(g, x, y), g.columns, g.color, g.bg, g.sx, g.sy, x, y)
  {
    forall i: int, j: int, u, v | 0 <= i < 6 && 0 <= j < 8 && InBand(x, g.sx, i, u) && InBand(y, g.sy, j, v)
      ensures Shown(CharFills(g, x, y), u, v) ==
              if i < 5 && (g.columns[i] >> j) & 1 == 1 then Coloured(g.color)
              else if g.bg != g.color then Coloured(g.bg) else Untouched
    {
      BlockOfChar(g, x, y, i, j, u, v);
      if i < 5 {
        BitIsShifted(g.columns[i], j);
      }
    }
  }

  lemma BlockOfChar(g: Glyph, x: int, y: int, i: nat, j: nat, u: int, v: int)
    requires Whole(g) && i < 6 && j < 8 && InBand(x, g.sx, i, u) && InBand(y, g.sy, j, v)
    ensures Shown(CharFills(g, x, y), u, v) == Wanted(g.columns, g.color, g.bg, i, j)
  {
    var margin := if g.bg != g.color then [Fill(x + 5 * g.sx, y, g.sx, 8 * g.sy, g.bg)] else [];
    GlyphShown(g, x, y, 5, i, j, u, v);
    ShownConcat(GlyphFills(g, x, y, 5), margin, u, v);
    BlockInside(j, 8, g.sy);
    MarginShown(margin, g, x, y, u, v);
    OneBand(x, g.sx, i, 5, u);
  }

  lemma MarginShown(margin: seq<Fill>, g: Glyph, x: int, y: int, u: int, v: int)
    requires margin == if g.bg != g.color then [Fill(x + 5 * g.sx, y, g.sx, 8 * g.sy, g.bg)] else []
    requires y <= v < y + 8 * g.sy
    ensures Shown(margin, u, v) == if g.bg != g.color && InBand(x, g.sx, 5, u) then Coloured(g.bg) else Untouched
  {
    assert |margin| <= 1;
  }

  lemma BitIsShifted(b: bv8, k: nat)
    requires k < 8
    ensures Bit(b, k) <==> (b >> k) & 1 == 1
  {
  }

  /** Beyond the cell nothing is touched. */
  lemma {:induction false} BeyondCell(fills: seq<Fill>, x: int, y: int, cw: int, ch: int, u: int, v: int)
    requires forall f :: f in fills ==> InCell(f, x, y, cw, ch)
    requires !(x <= u < x + cw && y <= v < y + ch)
    ensures Shown(fills, u, v).Untouched?
  {
    if fills != [] {
      assert fills[|fills| - 1] in fills;
      BeyondCell(fills[..|fills| - 1], x, y, cw, ch, u, v);
    }
  }

  /** What has been drawn since. */
  function Added(before: seq<Fill>, after: seq<Fill>): seq<Fill> {
    if |before| <= |after| then after[|before|..] else []
  }

  // --------------------------------------------------------------- printing

  /** The font, and what the setters set. */
  datatype Style = Style(font: seq<bv8>, m: Metrics, height: int, cp437: bool, color: int, bg: int, sx: nat, sy: nat)

  predicate Usable(st: Style) {
    |st.font| == 1280 && 0 < st.sx && 0 < st.sy && st.m.cw == 6 * st.sx && st.m.ch == 8 * st.sy
  }

  /** `if (!_cp437 && (c >= 176)) c++`, in eight bits. */
  function CodeOf(st: Style, c: uint8): uint8 {
    if !st.cp437 && c >= 176 then (if c == 255 then 0 else c + 1) else c
  }

  function GlyphOf(st: Style, c: uint8): (g: Glyph)
    requires Usable(st)
    ensures Whole(g)
  {
    var code: int := CodeOf(st, c);
    Glyph(st.font[5 * code..5 * code + 5], st.color, st.bg, st.sx, st.sy)
  }

  /** The cell is wholly off the screen. */
  predicate Offscreen(st: Style, x: int, y: int) {
    x >= st.m.width || y >= st.height || x + 6 * st.sx - 1 < 0 || y + 8 * st.sy - 1 < 0
  }

  /** What printing a character at a cursor draws. */
  function Ink(st: Style, at: Cursor, c: uint8): seq<Fill>
    requires Usable(st)
  {
    var p := Wrapped(st.m, at);
    if c == NEWLINE || c == RETURN || Offscreen(st, p.x, p.y) then [] else CharFills(GlyphOf(st, c), p.x, p.y)
  }

  /** What printing a string draws: character by character, each at the cursor
      those before it leave. */
  function InkAll(st: Style, from: Cursor, str: seq<uint8>): seq<Fill>
    requires Usable(st)
  {
    if str == [] then [] else
    var head := str[..|str| - 1];
    InkAll(st, from, head) + Ink(st, After(st.m, from, head), str[|str| - 1])
  }

  lemma InkCovered(st: Style, at: Cursor, c: uint8)
    requires Usable(st)
    ensures Covered(Ink(st, at, c), CellsOf(st.m, at, c), st.m)
  {
    var p := Wrapped(st.m, at);
    if Ink(st, at, c) != [] {
      CharInCell(GlyphOf(st, c), p.x, p.y);
      assert CellsOf(st.m, at, c)[0] == p;
    }
  }

  lemma {:induction false} InkAllCovered(st: Style, from: Cursor, str: seq<uint8>)
    requires Usable(st)
    ensures Covered(InkAll(st, from, str), Cells(st.m, from, str), st.m)
  {
    if str != [] {
      var head, c := str[..|str| - 1], str[|str| - 1];
      var at := After(st.m, from, head);
      InkAllCovered(st, from, head);
      InkCovered(st, at, c);
      CoveredConcat(InkAll(st, from, head), Ink(st, at, c), Cells(st.m, from, head), CellsOf(st.m, at, c), st.m);
    }
  }

  lemma PrintMore(st: Style, from: Cursor, str: seq<uint8>, i: nat)
    requires Usable(st) && i < |str|
    ensures var at := After(st.m, from, str[..i]);
      && After(st.m, from, str[..i + 1]) == Next(st.m, at, str[i])
      && InkAll(st, from, str[..i + 1]) == InkAll(st, from, str[..i]) + Ink(st, at, str[i])
  {
    assert str[..i + 1][..i] == str[..i];
  }

  /** Which columns of the font a character is drawn from. */
  lemma GlyphShows(st: Style, c: uint8, x: int, y: int)
    requires Usable(st)
    ensures var k := if !st.cp437 && c >= 176 then (c + 1) % 256 else c;
      ShowsChar(CharFills(GlyphOf(st, c), x, y), st.font[5 * k..5 * k + 5], st.color, st.bg, st.sx, st.sy, x, y)
  {
    CharShown(GlyphOf(st, c), x, y);
  }

  // ------------------------------------------------------------ the methods

  /** Cursors the 16-bit fields can hold with a character to spare. */
  predicate Room(at: Cursor) {
    -0x7000 <= at.x <= 0x7000 && -0x7000 <= at.y <= 0x7000
  }

  predicate AllRoom(m: Metrics, from: Cursor, str: seq<uint8>) {
    forall k :: 0 <= k <= |str| ==> Room(After(m, from, str[..k]))
  }

  /** Every fill stays in one of the cells. */
  ghost predicate Covered(fills: seq<Fill>, cells: seq<Cursor>, m: Metrics) {
    forall f :: f in fills ==> exists k :: 0 <= k < |cells| && InCell(f, cells[k].x, cells[k].y, m.cw, m.ch)
  }

  class Gfx {
    const font: seq<bv8>
    var width: int16
    var height: int16
    var cursor_x: int16
    var cursor_y: int16
    var textcolor: uint16
    var textbgcolor: uint16
    var textsize_x: uint8
    var textsize_y: uint8
    var wrap: bool
    var cp437: bool
    var drawn: seq<Fill>

    ghost predicate Ready()
      reads this`width, this`height, this`textsize_x, this`textsize_y
    {
      |font| == 1280 && 0 < width <= 0x7000 && 0 < height <= 0x7000 && 0 < textsize_x && 0 < textsize_y
    }

    constructor (glyphs: seq<bv8>, w: int16, h: int16)
      requires |glyphs| == 1280 && 0 < w <= 0x7000 && 0 < h <= 0x7000
      ensures Ready() && At() == Cursor(0, 0) && Measures() == Metrics(w, true, 6, 8) && drawn == []
    {
      font, width, height := glyphs, w, h;
      cursor_x, cursor_y := 0, 0;
      textsize_x, textsize_y := 1, 1;
      textcolor, textbgcolor := 0xFFFF, 0xFFFF;
      wrap, cp437, drawn := true, false, [];
    }

    /** setTextSize: never zero. */
    method SetTextSize(s_x: uint8, s_y: uint8)
      requires Ready()
      modifies this`textsize_x, this`textsize_y
      ensures Ready() && Measures() == Metrics(width, wrap, 6 * Max(s_x, 1), 8 * Max(s_y, 1))
    {
      textsize_x := if s_x > 0 then s_x else 1;
      textsize_y := if s_y > 0 then s_y else 1;
    }

    function Measures(): Metrics
      reads this`width, this`wrap, this`textsize_x, this`textsize_y
    {
      Metrics(width, wrap, 6 * textsize_x, 8 * textsize_y)
    }

    function At(): Cursor
      reads this`cursor_x, this`cursor_y
    {
      Cursor(cursor_x, cursor_y)
    }

    /** All that decides what printing looks like. */
    function Styled(): Style
      reads this`cp437, this`textcolor, this`textbgcolor, this`wrap
      reads this`width, this`height, this`textsize_x, this`textsize_y
    {
      Style(font, Measures(), height, cp437, textcolor, textbgcolor, textsize_x, textsize_y)
    }

    /** drawChar, as write calls it: in the text colours and size. */
    method DrawChar(x: int16, y: int16, c0: uint8)
      requires Ready() && -0x7000 <= x && -0x7000 <= y
      modifies this`drawn
      ensures drawn == old(drawn) + if Offscreen(Styled(), x, y) then [] else CharFills(GlyphOf(Styled(), c0), x, y)
      ensures x < width && y < height && 0 < x + 6 * textsize_x && 0 < y + 8 * textsize_y ==>
                var k := if !cp437 && c0 >= 176 then (c0 + 1) % 256 else c0;
                ShowsChar(Added(old(drawn), drawn), font[5 * k..5 * k + 5], textcolor, textbgcolor, textsize_x, textsize_y, x, y)
    {
      var size_x: nat, size_y: nat := textsize_x, textsize_y;
      if x >= width || y >= height || x + 6 * size_x - 1 < 0 || y + 8 * size_y - 1 < 0 {
        return;
      }
      DrawCell(x, y, c0);
      assert Added(old(drawn), drawn) == CharFills(GlyphOf(Styled(), c0), x, y);
      GlyphShows(Styled(), c0, x, y);
    }

    method DrawCell(x: int16, y: int16, c0: uint8)
      requires Ready() && -0x7000 <= x <= 0x7000 && -0x7000 <= y <= 0x7000
      modifies this`drawn
      ensures drawn == old(drawn) + CharFills(GlyphOf(Styled(), c0), x, y)
    {
      var c: nat, color, bg := c0, textcolor, textbgcolor;
      var size_x: nat, size_y: nat := textsize_x, textsize_y;
      c := CodeOf(Styled(), c0);
      ghost var g := GlyphOf(Styled(), c0);
      DrawColumns(g, x, y, c, size_x, size_y, color, bg);
      ghost var columns := drawn;
      DrawMargin(g, x, y, size_x, size_y, color, bg);
      AppendMargin(old(drawn), columns, drawn, g, x, y);
    }

    /** What printing shows: nothing for a line feed or a carriage return, and
        otherwise the character, wrapped to the next line if the width asks it. */
    lemma InkShows(at: Cursor, c: uint8)
      requires Ready()
      ensures var x, y := if wrap && at.x + 6 * textsize_x > width then 0 else at.x,
                          if wrap && at.x + 6 * textsize_x > width then at.y + 8 * textsize_y else at.y;
        var k := if !cp437 && c >= 176 then (c + 1) % 256 else c;
        if c == 10 || c == 13 || x >= width || y >= height || x + 6 * textsize_x - 1 < 0 || y + 8 * textsize_y - 1 < 0
        then Ink(Styled(), at, c) == []
        else ShowsChar(Ink(Styled(), at, c), font[5 * k..5 * k + 5], textcolor, textbgcolor, textsize_x, textsize_y, x, y)
    {
      var p := Wrapped(Measures(), at);
      GlyphShows(Styled(), c, p.x, p.y);
    }

    /** The background of the empty sixth column. */
    method DrawMargin(ghost g: Glyph, x: int16, y: int16, size_x: nat, size_y: nat, color: uint16, bg: uint16)
      requires Whole(g) && g == Glyph(g.columns, color, bg, size_x, size_y)
      requires -0x7000 <= x <= 0x7000 && -0x7000 <= y <= 0x7000 && size_x < 256 && size_y < 256
      modifies this`drawn
      ensures drawn == old(drawn) + if g.bg != g.color then [Fill(x + 5 * g.sx, y, g.sx, 8 * g.sy, g.bg)] else []
    {
      if bg != color {
        if size_x == 1 && size_y == 1 {
          WriteFillRect(x + 5, y, 1, 8, bg);
        } else {
          WriteFillRect(x + 5 * size_x, y, size_x, 8 * size_y, bg);
        }
      }
    }

    method DrawColumns(ghost g: Glyph, x: int16, y: int16, c: nat, size_x: nat, size_y: nat, color: uint16, bg: uint16)
      requires c < 256 && |font| == 1280 && Whole(g) && g == Glyph(font[5 * c..5 * c + 5], color, bg, size_x, size_y)
      requires -0x7000 <= x <= 0x7000 && -0x7000 <= y <= 0x7000 && size_x < 256 && size_y < 256
      modifies this`drawn
      ensures drawn == old(drawn) + GlyphFills(g, x, y, 5)
    {
      var i := 0;
      while i < 5
        invariant 0 <= i <= 5
        invariant drawn == old(drawn) + GlyphFills(g, x, y, i)
      {
        ghost var before := drawn;
        FontColumn(font, g.columns, c, i);
        DrawColumn(g, x, y, i, font[c * 5 + i], size_x, size_y, color, bg);
        AppendColumn(old(drawn), before, drawn, g, x, y, i);
        i := i + 1;
      }
    }

    /** One column of the glyph, its byte shifted out from the lowest bit. */
    method DrawColumn(ghost g: Glyph, x: int16, y: int16, i: nat, line0: bv8,
                      size_x: nat, size_y: nat, color: uint16, bg: uint16)
      requires Whole(g) && i < 5 && line0 == g.columns[i] && g == Glyph(g.columns, color, bg, size_x, size_y)
      requires -0x7000 <= x <= 0x7000 && -0x7000 <= y <= 0x7000 && size_x < 256 && size_y < 256
      modifies this`drawn
      ensures drawn == old(drawn) + ColumnFills(g, x, y, i, 8)
    {
      var line := line0;
      var j := 0;
      while j < 8
        invariant 0 <= j <= 8 && ShiftedDown(line, line0, j)
        invariant drawn == old(drawn) + ColumnFills(g, x, y, i, j)
      {
        DrawBlock(g, x, y, i, j, line & 1 != 0, size_x, size_y, color, bg);
        ShiftDown(line, line0, j, line >> 1);
        line := line >> 1;
        j := j + 1;
      }
    }

    method DrawBlock(ghost g: Glyph, x: int16, y: int16, i: nat, j: nat, set_: bool,
                     size_x: nat, size_y: nat, color: uint16, bg: uint16)
      requires Whole(g) && i < 5 && j < 8 && set_ == Bit(g.columns[i], j)
      requires g == Glyph(g.columns, color, bg, size_x, size_y)
      requires -0x7000 <= x <= 0x7000 && -0x7000 <= y <= 0x7000 && size_x < 256 && size_y < 256
      modifies this`drawn
      ensures drawn == old(drawn) + BlockFill(g, x, y, i, j)
    {
      BlockInside(i, 5, size_x);
      BlockInside(j, 8, size_y);
      if set_ {
        if size_x == 1 && size_y == 1 {
          WriteFillRect(x + i, y + j, 1, 1, color);
        } else {
          WriteFillRect(x + i * size_x, y + j * size_y, size_x, size_y, color);
        }
      } else if bg != color {
        if size_x == 1 && size_y == 1 {
          WriteFillRect(x + i, y + j, 1, 1, bg);
        } else {
          WriteFillRect(x + i * size_x, y + j * size_y, size_x, size_y, bg);
        }
      }
    }

    method WriteFillRect(x: int16, y: int16, w: int16, h: int16, color: uint16)
      modifies this`drawn
      ensures drawn == old(drawn) + [Fill(x, y, w, h, color)]
    {
      drawn := drawn + [Fill(x, y, w, h, color)];
    }

    // ----------------------------------------------------- write and print

    method Write(c: uint8)
      requires Ready() && Room(At())
      modifies this`cursor_x, this`cursor_y, this`drawn
      ensures At() == Next(Measures(), old(At()), c) && drawn == old(drawn) + Ink(Styled(), old(At()), c)
    {
      if c == NEWLINE {
        cursor_x := 0;
        cursor_y := cursor_y + 8 * (textsize_y as int);
      } else if c != RETURN {
        if wrap && cursor_x + 6 * (textsize_x as int) > width {
          cursor_x := 0;
          cursor_y := cursor_y + 8 * (textsize_y as int);
        }
        assert At() == Wrapped(Measures(), old(At()));
        DrawChar(cursor_x, cursor_y, c);
        cursor_x := cursor_x + 6 * (textsize_x as int);
      }
    }

    /** print: the characters one after the other, and nothing outside the cells
        of the string. */
    method Print(str: seq<uint8>)
      requires Ready() && AllRoom(Measures(), At(), str)
      modifies this`cursor_x, this`cursor_y, this`drawn
      ensures At() == After(Measures(), old(At()), str)
      ensures drawn == old(drawn) + InkAll(Styled(), old(At()), str)
      ensures |old(drawn)| <= |drawn| && drawn[..|old(drawn)|] == old(drawn)
      ensures Covered(drawn[|old(drawn)|..], Cells(Measures(), old(At()), str), Measures())
    {
      ghost var before := drawn;
      PrintLoop(str);
      InkAllCovered(Styled(), old(At()), str);
      assert drawn[|before|..] == InkAll(Styled(), old(At()), str);
    }

    method PrintLoop(str: seq<uint8>)
      requires Ready() && AllRoom(Measures(), At(), str)
      modifies this`cursor_x, this`cursor_y, this`drawn
      ensures At() == After(Measures(), old(At()), str)
      ensures drawn == old(drawn) + InkAll(Styled(), old(At()), str)
    {
      ghost var st, from, before := Styled(), At(), drawn;
      assert str[..0] == [];
      var i := 0;
      while i < |str|
        invariant 0 <= i <= |str| && At() == After(st.m, from, str[..i])
        invariant drawn == before + InkAll(st, from, str[..i])
      {
        PrintMore(st, from, str, i);
        WriteOn(str[i], st, before, InkAll(st, from, str[..i]));
        i := i + 1;
      }
      assert str[..i] == str;
    }

    /** One more character after what is printed already. */
    method WriteOn(c: uint8, ghost st: Style, ghost before: seq<Fill>, ghost ink: seq<Fill>)
      requires Ready() && st == Styled() && Room(At()) && drawn == before + ink
      modifies this`cursor_x, this`cursor_y, this`drawn
      ensures At() == Next(st.m, old(At()), c)
      ensures drawn == before + (ink + Ink(st, old(At()), c))
    {
      Write(c);
    }

    /** charBounds: moves its cursor just as write does, and stretches the box
        over the character's cell. */
    method CharBounds(c: uint8, x0: int16, y0: int16, l0: int16, t0: int16, r0: int16, b0: int16)
        returns (x: int16, y: int16, minx: int16, miny: int16, maxx: int16, maxy: int16)
      requires Ready() && Room(Cursor(x0, y0))
      ensures Cursor(x, y) == Next(Measures(), Cursor(x0, y0), c)
      ensures Box(minx, miny, maxx, maxy) == StretchAll(Measures(), Box(l0, t0, r0, b0), CellsOf(Measures(), Cursor(x0, y0), c))
      ensures Min(l0, -0x7000) <= minx && Min(t0, -0x7000) <= miny
    {
      x, y, minx, miny, maxx, maxy := x0, y0, l0, t0, r0, b0;
      if c == NEWLINE {
        x := 0;
        y := y + 8 * (textsize_y as int);
      } else if c != RETURN {
        if wrap && x + 6 * (textsize_x as int) > width {
          x := 0;
          y := y + 8 * (textsize_y as int);
        }
        StretchOne(Measures(), Box(l0, t0, r0, b0), Cursor(x, y));
        var x2, y2 := x + 6 * (textsize_x as int) - 1, y + 8 * (textsize_y as int) - 1;
        if x2 > maxx {
          maxx := x2;
        }
        if y2 > maxy {
          maxy := y2;
        }
        if x < minx {
          minx := x;
        }
        if y < miny {
          miny := y;
        }
        x := x + 6 * (textsize_x as int);
      }
    }

    /** getTextBounds, for a string up to its terminating zero. */
    method GetTextBounds(str: seq<uint8>, x: int16, y: int16) returns (x1: int16, y1: int16, w: uint16, h: uint16)
      requires Ready() && AllRoom(Measures(), Cursor(x, y), str) && 0 !in str
      ensures Encloses(Measures(), Cells(Measures(), Cursor(x, y), str), x1, y1, w, h)
      ensures Tight(Measures(), Cells(Measures(), Cursor(x, y), str), x1, y1, w, h) <==>
              Reaches(Measures(), Cells(Measures(), Cursor(x, y), str))
    {
      x1, y1, w, h := x, y, 0, 0;
      var cx, cy, minx, miny, maxx, maxy := BoundAll(str, x, y);
      BoxMeaning(Measures(), Cursor(x, y), str);
      if maxx >= minx {
        x1 := minx;
        w := maxx as int - minx as int + 1;
      }
      if maxy >= miny {
        y1 := miny;
        h := maxy as int - miny as int + 1;
      }
      BoundsMeaning(Measures(), Cursor(x, y), str, x1, y1, w, h);
    }

    /** Its loop of charBounds, which takes the cursor where print takes it. */
    method BoundAll(str: seq<uint8>, x: int16, y: int16)
        returns (cx: int16, cy: int16, minx: int16, miny: int16, maxx: int16, maxy: int16)
      requires Ready() && AllRoom(Measures(), Cursor(x, y), str) && 0 !in str
      ensures Cursor(cx, cy) == After(Measures(), Cursor(x, y), str)
      ensures Box(minx, miny, maxx, maxy) == StretchAll(Measures(), START, Cells(Measures(), Cursor(x, y), str))
      ensures -0x7000 <= minx && -0x7000 <= miny
    {
      ghost var m, from := Measures(), Cursor(x, y);
      cx, cy := x, y;
      minx, miny, maxx, maxy := 0x7FFF, 0x7FFF, -1, -1;
      assert str[..0] == [];
      var i := 0;
      while i < |str|
        invariant 0 <= i <= |str| && Cursor(cx, cy) == After(m, from, str[..i])
        invariant Box(minx, miny, maxx, maxy) == StretchAll(m, START, Cells(m, from, str[..i]))
        invariant -0x7000 <= minx && -0x7000 <= miny
      {
        OneMore(m, from, str, i);
        StretchConcat(m, START, Cells(m, from, str[..i]), CellsOf(m, Cursor(cx, cy), str[i]));
        cx, cy, minx, miny, maxx, maxy := CharBounds(str[i], cx, cy, minx, miny, maxx, maxy);
        i := i + 1;
      }
      assert str[..i] == str;
    }

    /** Printing at the cursor stays in the box measured for it. */
    method PrintMeasured(str: seq<uint8>) returns (x1: int16, y1: int16, w: uint16, h: uint16)
      requires Ready() && AllRoom(Measures(), At(), str) && 0 !in str
      modifies this`cursor_x, this`cursor_y, this`drawn
      ensures |old(drawn)| <= |drawn| && drawn[..|old(drawn)|] == old(drawn)
      ensures forall f :: f in drawn[|old(drawn)|..] ==> InCell(f, x1, y1, w, h)
    {
      ghost var m, from := Measures(), At();
      x1, y1, w, h := GetTextBounds(str, cursor_x, cursor_y);
      Print(str);
      forall f | f in drawn[|old(drawn)|..]
        ensures InCell(f, x1, y1, w, h)
      {
        var cells := Cells(m, from, str);
        var k :| 0 <= k < |cells| && InCell(f, cells[k].x, cells[k].y, m.cw, m.ch);
      }
    }
  }

  lemma FontColumn(font: seq<bv8>, columns: seq<bv8>, c: nat, i: nat)
    requires c < 256 && |font| == 1280 && columns == font[5 * c..5 * c + 5] && i < 5
    ensures columns[i] == font[c * 5 + i]
  {
  }

  lemma AppendColumn(start: seq<Fill>, before: seq<Fill>, after: seq<Fill>, g: Glyph, x: int, y: int, i: nat)
    requires Whole(g) && i < 5 && before == start + GlyphFills(g, x, y, i)
    requires after == before + ColumnFills(g, x, y, i, 8)
    ensures after == start + GlyphFills(g, x, y, i + 1)
  {
  }

  lemma AppendMargin(start: seq<Fill>, before: seq<Fill>, after: seq<Fill>, g: Glyph, x: int, y: int)
    requires Whole(g) && before == start + GlyphFills(g, x, y, 5)
    requires after == before + if g.bg != g.color then [Fill(x + 5 * g.sx, y, g.sx, 8 * g.sy, g.bg)] else []
    ensures after == start + CharFills(g, x, y)
  {
  }

  // ------------------------------------------------------------------- boxes

  datatype Box = Box(l: int, t: int, r: int, b: int)

  /** Inside out, so that the first character sets it. */
  const START := Box(0x7FFF, 0x7FFF, -1, -1)

  function Stretch(m: Metrics, box: Box, cell: Cursor): Box {
    Box(Min(box.l, cell.x), Min(box.t, cell.y), Max(box.r, cell.x + m.cw - 1), Max(box.b, cell.y + m.ch - 1))
  }

  function StretchAll(m: Metrics, box: Box, cells: seq<Cursor>): Box {
    if cells == [] then box else Stretch(m, StretchAll(m, box, cells[..|cells| - 1]), cells[|cells| - 1])
  }

  lemma StretchOne(m: Metrics, box: Box, cell: Cursor)
    ensures StretchAll(m, box, [cell]) == Stretch(m, box, cell)
  {
    assert [cell][..0] == [];
  }

  lemma {:induction false} StretchConcat(m: Metrics, box: Box, a: seq<Cursor>, b: seq<Cursor>)
    ensures StretchAll(m, box, a + b) == StretchAll(m, StretchAll(m, box, a), b)
  {
    if b == [] {
      assert a + b == a;
    } else {
      assert (a + b)[..|a + b| - 1] == a + b[..|b| - 1];
      StretchConcat(m, box, a, b[..|b| - 1]);
    }
  }

  /** Every cell is in the box. */
  predicate Encloses(m: Metrics, cells: seq<Cursor>, x1: int, y1: int, w: int, h: int) {
    forall k :: 0 <= k < |cells| ==>
      x1 <= cells[k].x && cells[k].x + m.cw <= x1 + w && y1 <= cells[k].y && cells[k].y + m.ch <= y1 + h
  }

  /** The box is no larger than the cells: each side meets one of them. */
  ghost predicate Tight(m: Metrics, cells: seq<Cursor>, x1: int, y1: int, w: int, h: int) {
    cells == [] ||
    ((exists k :: 0 <= k < |cells| && cells[k].x == x1) && (exists k :: 0 <= k < |cells| && cells[k].y == y1) &&
     (exists k :: 0 <= k < |cells| && cells[k].x + m.cw == x1 + w) &&
     (exists k :: 0 <= k < |cells| && cells[k].y + m.ch == y1 + h))
  }

  lemma CoveredConcat(f: seq<Fill>, g: seq<Fill>, a: seq<Cursor>, b: seq<Cursor>, m: Metrics)
    requires Covered(f, a, m) && Covered(g, b, m)
    ensures Covered(f + g, a + b, m)
  {
    forall e | e in f + g
      ensures exists k :: 0 <= k < |a + b| && InCell(e, (a + b)[k].x, (a + b)[k].y, m.cw, m.ch)
    {
      if e in f {
        var k :| 0 <= k < |a| && InCell(e, a[k].x, a[k].y, m.cw, m.ch);
        assert (a + b)[k] == a[k];
      } else {
        var k :| 0 <= k < |b| && InCell(e, b[k].x, b[k].y, m.cw, m.ch);
        assert (a + b)[|a| + k] == b[k];
      }
    }
  }

  lemma {:induction false} StretchHolds(m: Metrics, cells: seq<Cursor>, k: nat)
    requires k < |cells|
    ensures var box := StretchAll(m, START, cells);
      box.l <= cells[k].x && cells[k].x + m.cw - 1 <= box.r && box.t <= cells[k].y && cells[k].y + m.ch - 1 <= box.b
  {
    if k < |cells| - 1 {
      StretchHolds(m, cells[..|cells| - 1], k);
    }
  }

  predicate Below(cells: seq<Cursor>) {
    forall k :: 0 <= k < |cells| ==> cells[k].x < 0x7FFF && cells[k].y < 0x7FFF
  }

  predicate Beyond(cells: seq<Cursor>) {
    forall k :: 0 <= k < |cells| ==> 0 <= cells[k].x && 0 <= cells[k].y
  }

  /** No cell starts as far out as the inside-out minima; where layout starts at
      or beyond the origin, so do its cells. */
  lemma {:induction false} CellsBeyond(m: Metrics, from: Cursor, str: seq<uint8>)
    requires m.ch < 0x0FFF && AllRoom(m, from, str)
    ensures Below(Cells(m, from, str))
    ensures 0 <= from.x && 0 <= from.y ==>
              0 <= After(m, from, str).x && 0 <= After(m, from, str).y && Beyond(Cells(m, from, str))
  {
    if str != [] {
      var head := str[..|str| - 1];
      assert forall k :: 0 <= k <= |head| ==> head[..k] == str[..k];
      CellsBeyond(m, from, head);
      assert head[..|head|] == head;
    }
  }

  /** The maxima start at -1, so that the box reaches down to there whatever the
      text: some cell has to reach as far, both ways, for the box to be tight. */
  ghost predicate Reaches(m: Metrics, cells: seq<Cursor>) {
    cells == [] ||
    ((exists k :: 0 <= k < |cells| && 0 <= cells[k].x + m.cw) && (exists k :: 0 <= k < |cells| && 0 <= cells[k].y + m.ch))
  }

  /** The cells that set the sides of the box. */
  lemma {:induction false} StretchMeets(m: Metrics, cells: seq<Cursor>) returns (kl: nat, kt: nat, kr: nat, kb: nat)
    requires cells != [] && Below(cells) && 0 < m.cw && 0 < m.ch
    ensures var box := StretchAll(m, START, cells);
      && kl < |cells| && kt < |cells| && kr < |cells| && kb < |cells|
      && cells[kl].x == box.l && cells[kt].y == box.t
      && Max(-1, cells[kr].x + m.cw - 1) == box.r && Max(-1, cells[kb].y + m.ch - 1) == box.b
  {
    var n := |cells| - 1;
    kl, kt, kr, kb := n, n, n, n;
    if n > 0 {
      var a, b, c, d := StretchMeets(m, cells[..n]);
      var box := StretchAll(m, START, cells);
      kl := if cells[n].x == box.l then n else a;
      kt := if cells[n].y == box.t then n else b;
      kr := if cells[n].x + m.cw - 1 == box.r then n else c;
      kb := if cells[n].y + m.ch - 1 == box.b then n else d;
    }
  }

  lemma BoxMeaning(m: Metrics, from: Cursor, str: seq<uint8>)
    requires 0 < m.cw && 0 < m.ch < 0x0FFF && AllRoom(m, from, str)
    ensures var cells := Cells(m, from, str);
      var box := StretchAll(m, START, cells);
      && (cells == [] ==> box == START)
      && (cells != [] ==> box.l <= box.r && box.t <= box.b && Encloses(m, cells, box.l, box.t, box.r - box.l + 1, box.b - box.t + 1))
  {
    var cells := Cells(m, from, str);
    var box := StretchAll(m, START, cells);
    forall k | 0 <= k < |cells|
      ensures box.l <= cells[k].x && cells[k].x + m.cw - 1 <= box.r && box.t <= cells[k].y && cells[k].y + m.ch - 1 <= box.b
    {
      StretchHolds(m, cells, k);
    }
  }

  /** A layout that starts at or beyond the origin reaches as far. */
  lemma StartReaches(m: Metrics, from: Cursor, str: seq<uint8>)
    requires m.ch < 0x0FFF && AllRoom(m, from, str) && 0 <= from.x && 0 <= from.y
    ensures Reaches(m, Cells(m, from, str))
  {
    var cells := Cells(m, from, str);
    CellsBeyond(m, from, str);
    if cells != [] {
      assert 0 <= cells[0].x + m.cw && 0 <= cells[0].y + m.ch;
    }
  }

  /** What getTextBounds makes of the box. */
  lemma BoundsMeaning(m: Metrics, from: Cursor, str: seq<uint8>, x1: int, y1: int, w: int, h: int)
    requires 0 < m.cw && 0 < m.ch < 0x0FFF && AllRoom(m, from, str)
    requires var cells := Cells(m, from, str);
      var box := StretchAll(m, START, cells);
      cells != [] ==> x1 == box.l && y1 == box.t && w == box.r - box.l + 1 && h == box.b - box.t + 1
    ensures Encloses(m, Cells(m, from, str), x1, y1, w, h)
    ensures Tight(m, Cells(m, from, str), x1, y1, w, h) <==> Reaches(m, Cells(m, from, str))
  {
    var cells := Cells(m, from, str);
    BoxMeaning(m, from, str);
    CellsBeyond(m, from, str);
    BoundsTight(m, cells, x1, y1, w, h);
  }

  lemma BoundsTight(m: Metrics, cells: seq<Cursor>, x1: int, y1: int, w: int, h: int)
    requires Below(cells) && 0 < m.cw && 0 < m.ch
    requires var box := StretchAll(m, START, cells);
      cells != [] ==> x1 == box.l && y1 == box.t && w == box.r - box.l + 1 && h == box.b - box.t + 1
    ensures Tight(m, cells, x1, y1, w, h) <==> Reaches(m, cells)
  {
    if cells != [] {
      TightWhenReached(m, cells);
    }
  }

  lemma TightWhenReached(m: Metrics, cells: seq<Cursor>)
    requires cells != [] && Below(cells) && 0 < m.cw && 0 < m.ch
    ensures var box := StretchAll(m, START, cells);
      Tight(m, cells, box.l, box.t, box.r - box.l + 1, box.b - box.t + 1) <==> Reaches(m, cells)
  {
    var box := StretchAll(m, START, cells);
    var kl, kt, kr, kb := StretchMeets(m, cells);
    if Reaches(m, cells) {
      var k :| 0 <= k < |cells| && 0 <= cells[k].x + m.cw;
      var l :| 0 <= l < |cells| && 0 <= cells[l].y + m.ch;
      StretchHolds(m, cells, k);
      StretchHolds(m, cells, l);
      assert cells[kr].x + m.cw - 1 == box.r || cells[k].x + m.cw - 1 == box.r;
      assert cells[kb].y + m.ch - 1 == box.b || cells[l].y + m.ch - 1 == box.b;
    }
  }

  /** A text that does not: one character far off a screen 128 wide. The box runs
      from it to the origin. */
  lemma OffScreenBox()
    ensures var m, from, str := Metrics(128, true, 6, 8), Cursor(-100, -100), [65 as uint8];
      var cells := Cells(m, from, str);
      var box := StretchAll(m, START, cells);
      && AllRoom(m, from, str) && !Reaches(m, cells)
      && box == Box(-100, -100, -1, -1) && !Tight(m, cells, -100, -100, 100, 100)
  {
    var m, from, str := Metrics(128, true, 6, 8), Cursor(-100, -100), [65 as uint8];
    assert str[..0] == [];
    assert Cells(m, from, str) == [from];
    StretchOne(m, START, from);
    assert forall k :: 0 <= k <= 1 ==> str[..k] == if k == 0 then [] else str;
  }

  /** line0 shifted right j times, as far as it still shows. */
  predicate ShiftedDown(line: bv8, line0: bv8, j: int) {
    0 <= j <= 8 && (forall k :: 0 <= k < 8 - j ==> Bit(line, k) == Bit(line0, k + j)) && (j < 8 ==> (line & 1 != 0) == Bit(line0, j))
  }

  lemma ShiftDown(line: bv8, line0: bv8, j: nat, next: bv8)
    requires j < 8 && ShiftedDown(line, line0, j) && next == line >> 1
    ensures ShiftedDown(next, line0, j + 1)
  {
    forall k | 0 <= k < 7 - j
      ensures Bit(next, k) == Bit(line0, k + j + 1)
    {
      ShiftRightBit(line, k);
    }
    assert (next & 1 != 0) == Bit(next, 0);
  }

  lemma ShiftRightBit(b: bv8, k: nat)
    requires k < 7
    ensures Bit(b >> 1, k) == Bit(b, k + 1)
  {
  }
}
