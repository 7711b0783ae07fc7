/** Adafruit_GFX::fillCircleHelper, fillCircle and fillRoundRect, as the
    vertical lines they hand to writeFastVLine. */
module FilledCircle {
  import opened CInts
  import opened Line
  import opened Circle

  /** One call of writeFastVLine(x, y, h, color). */
  datatype VLine = VLine(x: int, y: int, h: int)

  /** A column drawn on either side of the centre: `half` is how far it reaches
      above it. */
  datatype Column = Column(col: nat, half: nat)

  predicate Covers(l: VLine, p: Point) {
    p.x == l.x && l.y <= p.y < l.y + l.h
  }

  /** How often a list of lines touches a pixel; an INVERSE fill shows each touch. */
  function Touches(lines: seq<VLine>, p: Point): nat {
    if lines == [] then 0 else
    Touches(lines[..|lines| - 1], p) + if Covers(lines[|lines| - 1], p) then 1 else 0
  }

  lemma {:induction false} TouchesConcat(a: seq<VLine>, b: seq<VLine>, p: Point)
    ensures Touches(a + b, p) == Touches(a, p) + Touches(b, p)
  {
    if b == [] {
      assert a + b == a;
    } else {
      var n := |b| - 1;
      assert (a + b)[..|a + b| - 1] == a + b[..n];
      TouchesConcat(a, b[..n], p);
    }
  }

  /** How many lines there are in column x, empty ones included. */
  function LinesAt(lines: seq<VLine>, x: int): nat {
    if lines == [] then 0 else
    LinesAt(lines[..|lines| - 1], x) + if lines[|lines| - 1].x == x then 1 else 0
  }

  lemma {:induction false} LinesAtConcat(a: seq<VLine>, b: seq<VLine>, x: int)
    ensures LinesAt(a + b, x) == LinesAt(a, x) + LinesAt(b, x)
  {
    if b == [] {
      assert a + b == a;
    } else {
      var n := |b| - 1;
      assert (a + b)[..|a + b| - 1] == a + b[..n];
      LinesAtConcat(a, b[..n], x);
    }
  }

  lemma OneMoreLine(lines: seq<VLine>, l: VLine)
    ensures forall p :: Touches(lines + [l], p) == Touches(lines, p) + if Covers(l, p) then 1 else 0
    ensures forall c :: LinesAt(lines + [l], c) == LinesAt(lines, c) + if l.x == c then 1 else 0
  {
    assert (lines + [l])[..|lines|] == lines;
  }

  // ---------------------------------------------------------------- columns

  /** The columns turn n draws: the new x while it has not passed y, and the
      column y leaves when it steps down. */
  function TurnColumns(r: nat, n: nat): seq<Column>
    requires n > 0 && Reached(r, n)
  {
    ArcInvariant(r, n);
    ArcInvariant(r, n - 1);
    var y, py := ArcAt(r, n).y, ArcAt(r, n - 1).y;
    NearColumns(n, y) + FarColumns(n, y, py)
  }

  function NearColumns(n: nat, y: nat): seq<Column> {
    if n < y + 1 then [Column(n, y)] else []
  }

  function FarColumns(n: nat, y: nat, py: nat): seq<Column>
    requires n > 0
  {
    if y != py then [Column(py, n - 1)] else []
  }

  function Columns(r: nat, n: nat): seq<Column>
    requires Reached(r, n)
  {
    if n == 0 then [] else
    ReachedBefore(r, n);
    Columns(r, n - 1) + TurnColumns(r, n)
  }

  /** How often column k is drawn at height b above the centre. */
  function Hits(cs: seq<Column>, k: nat, b: nat): nat {
    if cs == [] then 0 else
    var c := cs[|cs| - 1];
    Hits(cs[..|cs| - 1], k, b) + if c.col == k && b <= c.half then 1 else 0
  }

  lemma {:induction false} HitsConcat(a: seq<Column>, b: seq<Column>, k: nat, h: nat)
    ensures Hits(a + b, k, h) == Hits(a, k, h) + Hits(b, k, h)
  {
    if b == [] {
      assert a + b == a;
    } else {
      var n := |b| - 1;
      assert (a + b)[..|a + b| - 1] == a + b[..n];
      HitsConcat(a, b[..n], k, h);
    }
  }

  /** Below a rim point nearer the axis than the diagonal lies the disc. */
  lemma DiscBelowRim(r: nat, n: nat, y: nat, b: nat)
    requires Ring(r, n, y) && n <= y && b <= y
    ensures Disc(r, n, b)
  {
    if b <= n {
      SqMono(b, n);
      SqMono(n, y);
    } else {
      SqMono(b, y);
    }
  }

  lemma NoDiscAboveRim(r: nat, n: nat, y: nat, b: nat)
    requires Ring(r, n, y) && n <= y < b
    ensures !Disc(r, n, b)
  {
    SqMono(y + 1, b);
  }

  /** The new column reaches exactly as high as the disc. */
  lemma NearColumn(r: nat, n: nat, b: nat)
    requires n > 0 && Reached(r, n) && n <= ArcAt(r, n).y
    ensures Disc(r, n, b) <==> b <= ArcAt(r, n).y
  {
    VisitedOnRing(r, n);
    if b <= ArcAt(r, n).y {
      DiscBelowRim(r, n, ArcAt(r, n).y, b);
    } else {
      NoDiscAboveRim(r, n, ArcAt(r, n).y, b);
    }
  }

  /** The column y leaves reaches exactly as high as the disc. */
  lemma FarColumn(r: nat, n: nat, b: nat)
    requires n > 0 && Reached(r, n) && ArcAt(r, n).y != ArcAt(r, n - 1).y
    ensures var py := ArcAt(r, n - 1).y; py >= 0 && (Disc(r, py, b) <==> b <= n - 1)
  {
    var py := ArcAt(r, n - 1).y;
    ReachedBefore(r, n);
    ArcInvariant(r, n - 1);
    if b <= n - 1 {
      SqMono(b, n - 1);
    } else {
      SqMono(n, b);
      SqMono(py, Max(py, b));
    }
  }

  /** After n turns columns 1..n and y+1..r are drawn, each once, to the height
      of the disc: the two guards in the loop split the columns between them. */
  lemma {:induction false} ColumnsOnce(r: nat, n: nat, k: nat, b: nat)
    requires Reached(r, n)
    ensures var y := ArcAt(r, n).y;
      Hits(Columns(r, n), k, b) ==
      if (1 <= k <= Min(n, y) || y < k <= r) && Disc(r, k, b) then 1 else 0
  {
    if n > 0 {
      ReachedBefore(r, n);
      ColumnsOnce(r, n - 1, k, b);
      HitsConcat(Columns(r, n - 1), TurnColumns(r, n), k, b);
      TurnOnce(r, n, k, b);
      TurnSteps(r, n);
    } else {
      assert ArcAt(r, 0).y == r;
    }
  }

  /** What a turn does to y. */
  lemma TurnSteps(r: nat, n: nat)
    requires n > 0 && Reached(r, n)
    ensures var y, py := ArcAt(r, n).y, ArcAt(r, n - 1).y; n <= py <= r && 0 <= y && (y == py || y == py - 1)
  {
    ArcInvariant(r, n);
    ReachedBefore(r, n);
    ArcInvariant(r, n - 1);
  }

  lemma TurnOnce(r: nat, n: nat, k: nat, b: nat)
    requires n > 0 && Reached(r, n)
    ensures var y, py := ArcAt(r, n).y, ArcAt(r, n - 1).y;
      Hits(TurnColumns(r, n), k, b) ==
      if ((k == n && n <= y) || (k == py && y != py)) && Disc(r, k, b) then 1 else 0
  {
    var y, py := ArcAt(r, n).y, ArcAt(r, n - 1).y;
    if n <= y {
      NearColumn(r, n, b);
    }
    if y != py {
      FarColumn(r, n, b);
    }
    ArcInvariant(r, n);
    ArcInvariant(r, n - 1);
    HitsConcat(NearColumns(n, y), FarColumns(n, y, py), k, b);
  }

  /** No column leaves the disc's bounding square. */
  lemma {:induction false} ColumnsBounded(r: nat, n: nat)
    requires Reached(r, n)
    ensures forall c :: c in Columns(r, n) ==> c.col <= r && c.half <= r
  {
    if n > 0 {
      ReachedBefore(r, n);
      ColumnsBounded(r, n - 1);
      AccumulatorRange(r, n);
      AccumulatorRange(r, n - 1);
    }
  }

  // ------------------------------------------------------- fillCircleHelper

  /** The arguments of writeFastVLine are narrowed to int16_t. */
  function WriteFastVLine(x: int16, y: int16, h: int16): VLine {
    VLine(x, y, h)
  }

  /** The quarters `corners` selects: those on the right, on the left, or both. */
  datatype Sides = Sides(right: bool, left: bool)

  const RIGHT := Sides(true, false)
  const LEFT := Sides(false, true)

  function SidesOf(corners: bv8): Sides {
    Sides(corners & 1 != 0, corners & 2 != 0)
  }

  lemma SideMasks()
    ensures SidesOf(1) == RIGHT && SidesOf(2) == LEFT && SidesOf(3) == Sides(true, true)
  {
  }

  /** The lines of one column. */
  function ColumnLines(x0: int, y0: int, sides: Sides, delta: int, c: Column): seq<VLine> {
    (if sides.right then [VLine(x0 + c.col, y0 - c.half, 2 * c.half + delta + 1)] else []) +
    (if sides.left then [VLine(x0 - c.col, y0 - c.half, 2 * c.half + delta + 1)] else [])
  }

  function Lines(x0: int, y0: int, sides: Sides, delta: int, cs: seq<Column>): seq<VLine> {
    if cs == [] then [] else
    Lines(x0, y0, sides, delta, cs[..|cs| - 1]) + ColumnLines(x0, y0, sides, delta, cs[|cs| - 1])
  }

  lemma LinesAppend(x0: int, y0: int, sides: Sides, delta: int, cs: seq<Column>, c: Column)
    ensures Lines(x0, y0, sides, delta, cs + [c]) ==
            Lines(x0, y0, sides, delta, cs) + ColumnLines(x0, y0, sides, delta, c)
  {
    assert (cs + [c])[..|cs + [c]| - 1] == cs;
  }

  lemma {:induction false} LinesConcat(x0: int, y0: int, sides: Sides, delta: int, a: seq<Column>, b: seq<Column>)
    ensures Lines(x0, y0, sides, delta, a + b) ==
            Lines(x0, y0, sides, delta, a) + Lines(x0, y0, sides, delta, b)
  {
    if b == [] {
      assert a + b == a;
    } else {
      var n := |b| - 1;
      assert a + b == a + b[..n] + [b[n]];
      LinesAppend(x0, y0, sides, delta, a + b[..n], b[n]);
      LinesConcat(x0, y0, sides, delta, a, b[..n]);
    }
  }

  /** How far row y is above y0 or below y0 + delta. */
  function Rise(y0: int, delta: int, y: int): nat {
    Max(0, Max(y0 - y, y - y0 - delta))
  }

  lemma {:induction false} LinesTouch(x0: int, y0: int, sides: Sides, delta: int, cs: seq<Column>, p: Point)
    ensures Touches(Lines(x0, y0, sides, delta, cs), p) ==
      (if sides.right && p.x >= x0 then Hits(cs, Abs(p.x - x0), Rise(y0, delta, p.y)) else 0) +
      (if sides.left && p.x <= x0 then Hits(cs, Abs(p.x - x0), Rise(y0, delta, p.y)) else 0)
  {
    if cs != [] {
      var n := |cs| - 1;
      LinesTouch(x0, y0, sides, delta, cs[..n], p);
      TouchesConcat(Lines(x0, y0, sides, delta, cs[..n]), ColumnLines(x0, y0, sides, delta, cs[n]), p);
      ColumnTouch(x0, y0, sides, delta, cs[n], p);
    }
  }

  lemma ColumnTouch(x0: int, y0: int, sides: Sides, delta: int, c: Column, p: Point)
    ensures Touches(ColumnLines(x0, y0, sides, delta, c), p) ==
      (if sides.right && p.x == x0 + c.col && Rise(y0, delta, p.y) <= c.half then 1 else 0) +
      (if sides.left && p.x == x0 - c.col && Rise(y0, delta, p.y) <= c.half then 1 else 0)
  {
    var right := if sides.right then [VLine(x0 + c.col, y0 - c.half, 2 * c.half + delta + 1)] else [];
    var left := if sides.left then [VLine(x0 - c.col, y0 - c.half, 2 * c.half + delta + 1)] else [];
    TouchesConcat(right, left, p);
    assert |right| <= 1 && |left| <= 1;
  }

  lemma {:induction false} LinesInColumn(x0: int, y0: int, sides: Sides, delta: int, cs: seq<Column>, x: int)
    ensures LinesAt(Lines(x0, y0, sides, delta, cs), x) ==
      (if sides.right && x >= x0 then Hits(cs, Abs(x - x0), 0) else 0) +
      (if sides.left && x <= x0 then Hits(cs, Abs(x - x0), 0) else 0)
  {
    if cs != [] {
      var n := |cs| - 1;
      LinesInColumn(x0, y0, sides, delta, cs[..n], x);
      LinesAtConcat(Lines(x0, y0, sides, delta, cs[..n]), ColumnLines(x0, y0, sides, delta, cs[n]), x);
      LinesOfColumn(x0, y0, sides, delta, cs[n], x);
    }
  }

  lemma LinesOfColumn(x0: int, y0: int, sides: Sides, delta: int, c: Column, x: int)
    ensures LinesAt(ColumnLines(x0, y0, sides, delta, c), x) ==
      (if sides.right && x == x0 + c.col then 1 else 0) + (if sides.left && x == x0 - c.col then 1 else 0)
  {
    var right := if sides.right then [VLine(x0 + c.col, y0 - c.half, 2 * c.half + delta + 1)] else [];
    var left := if sides.left then [VLine(x0 - c.col, y0 - c.half, 2 * c.half + delta + 1)] else [];
    LinesAtConcat(right, left, x);
    assert |right| <= 1 && |left| <= 1;
  }

  /** A line reaching at most r rows above y0, and as far below y0 + delta. */
  predicate Reaching(l: VLine, x0: int, y0: int, r: int, delta: int) {
    Abs(l.x - x0) <= r && y0 - r <= l.y <= y0 && l.h == 2 * (y0 - l.y) + delta + 1
  }

  lemma {:induction false} LinesReaching(x0: int, y0: int, r: nat, sides: Sides, delta: int, cs: seq<Column>)
    requires forall c :: c in cs ==> c.col <= r && c.half <= r
    ensures forall l :: l in Lines(x0, y0, sides, delta, cs) ==> Reaching(l, x0, y0, r, delta)
  {
    if cs != [] {
      LinesReaching(x0, y0, r, sides, delta, cs[..|cs| - 1]);
      assert cs[|cs| - 1] in cs;
    }
  }

  predicate Fits(a: int) {
    -0x8000 <= a < 0x8000
  }

  /** The two guarded writes that the loop below makes for a column, twice. */
  method WriteColumn(x0: int16, y0: int16, corners: bv8, col: int16, half: int16, delta: int16)
      returns (lines: seq<VLine>)
    requires 0 <= col && 0 <= half
    requires corners & 1 != 0 ==> Fits(x0 + col)
    requires corners & 2 != 0 ==> Fits(x0 - col)
    requires Fits(y0 - half) && Fits(2 * half + delta)
    ensures lines == ColumnLines(x0, y0, SidesOf(corners), delta - 1, Column(col, half))
  {
    lines := [];
    if corners & 1 != 0 {
      lines := lines + [WriteFastVLine(x0 + col, y0 - half, 2 * half + delta)];
    }
    if corners & 2 != 0 {
      lines := lines + [WriteFastVLine(x0 - col, y0 - half, 2 * half + delta)];
    }
  }

  /** The helper's half discs, once over; each of their columns has one line, no
      other column has any, and no line leaves the reach of the radius. */
  ghost predicate IsHelper(lines: seq<VLine>, x0: int, y0: int, r: nat, sides: Sides, delta: int) {
    && (forall p :: Touches(lines, p) == HelperTouches(x0, y0, r, sides, delta, p))
    && (forall c :: LinesAt(lines, c) == if HelperColumn(x0, r, sides, c) then 1 else 0)
    && (forall l :: l in lines ==> Reaching(l, x0, y0, r, delta))
  }

  /** The guarded lines of one turn, which keep a column from being drawn twice. */
  method WriteTurn(ghost r: nat, x0: int16, y0: int16, corners: bv8, x: int16, y: int16, px: int16, py: int16, delta: int16)
      returns (lines: seq<VLine>, py': int16)
    requires r <= 16384 && 0 <= y <= py <= r && 0 < x <= r && px == x - 1
    requires Reached(r, x) && y == ArcAt(r, x).y && py == ArcAt(r, x - 1).y
    requires corners & 1 != 0 ==> Fits(x0 + r)
    requires corners & 2 != 0 ==> Fits(x0 - r)
    requires Fits(y0 - r) && Fits(delta) && Fits(2 * r + delta)
    ensures lines == Lines(x0, y0, SidesOf(corners), delta - 1, TurnColumns(r, x)) && py' == y
  {
    var near := WriteWhen(x < y + 1, x0, y0, corners, x, y, delta);
    var far := WriteWhen(y != py, x0, y0, corners, py, px, delta);
    lines, py' := near + far, y;
    LinesConcat(x0, y0, SidesOf(corners), delta - 1, NearColumns(x, y), FarColumns(x, y, py));
  }

  /** One of the two guards, with the writes under it. */
  method WriteWhen(needed: bool, x0: int16, y0: int16, corners: bv8, col: int16, half: int16, delta: int16)
      returns (lines: seq<VLine>)
    requires 0 <= col && 0 <= half
    requires corners & 1 != 0 ==> Fits(x0 + col)
    requires corners & 2 != 0 ==> Fits(x0 - col)
    requires Fits(y0 - half) && Fits(2 * half + delta)
    ensures lines == Lines(x0, y0, SidesOf(corners), delta - 1, if needed then [Column(col, half)] else [])
  {
    lines := [];
    if needed {
      lines := WriteColumn(x0, y0, corners, col, half, delta);
      LinesAppend(x0, y0, SidesOf(corners), delta - 1, [], Column(col, half));
      assert [] + [Column(col, half)] == [Column(col, half)];
    }
  }

  method FillCircleHelper(x0: int16, y0: int16, r: int16, corners: bv8, offset: int16)
      returns (lines: seq<VLine>)
    requires 0 <= r <= 16384
    requires corners & 1 != 0 ==> Fits(x0 + r)
    requires corners & 2 != 0 ==> Fits(x0 - r)
    requires Fits(y0 - r)
    requires Fits(offset + 1) && Fits(2 * r + offset + 1)
    ensures IsHelper(lines, x0, y0, r, SidesOf(corners), offset)
    ensures offset >= 0 ==> AllCross(lines, y0)
  {
    var f: int16 := 1 - r;
    var ddF_x: int16 := 1;
    var ddF_y: int16 := -2 * r;
    var x: int16 := 0;
    var y: int16 := r;
    var px, py := x, y;
    var delta: int16 := offset + 1;
    lines := [];
    while x < y
      invariant 0 <= x <= r && y <= r && px == x && py == y && Reached(r, x)
      invariant ArcAt(r, x) == Arc(y, f)
      invariant ddF_x == 2 * x + 1 && ddF_y == -2 * y
      invariant lines == Lines(x0, y0, SidesOf(corners), offset, Columns(r, x))
    {
      x, y, f, ddF_x, ddF_y := Turn(r, x, y, f, ddF_x, ddF_y);
      var turn;
      turn, py := WriteTurn(r, x0, y0, corners, x, y, px, py, delta);
      LinesConcat(x0, y0, SidesOf(corners), offset, Columns(r, x - 1), TurnColumns(r, x));
      lines := lines + turn;
      px := x;
    }
    HelperMeaning(x0, y0, r, SidesOf(corners), offset, x, lines);
    if offset >= 0 {
      LinesCross(x0, y0, SidesOf(corners), offset, Columns(r, x));
    }
  }

  /** Every line crosses row y. */
  predicate AllCross(lines: seq<VLine>, y: int) {
    forall l :: l in lines ==> Covers(l, Point(l.x, y))
  }

  lemma {:induction false} LinesCross(x0: int, y0: int, sides: Sides, delta: nat, cs: seq<Column>)
    ensures AllCross(Lines(x0, y0, sides, delta, cs), y0)
  {
    if cs != [] {
      LinesCross(x0, y0, sides, delta, cs[..|cs| - 1]);
    }
  }

  lemma {:induction false} LinesAtRow(lines: seq<VLine>, x: int, y: int)
    requires AllCross(lines, y)
    ensures LinesAt(lines, x) == Touches(lines, Point(x, y))
  {
    if lines != [] {
      var n := |lines| - 1;
      assert lines[n] in lines;
      assert AllCross(lines[..n], y);
      LinesAtRow(lines[..n], x, y);
    }
  }

  /** The helper fills the disc's columns 1..r on the sides asked for, with
      the centre stretched downward by `delta` rows. */
  function HelperTouches(x0: int, y0: int, r: nat, sides: Sides, delta: int, p: Point): nat {
    if ((sides.right && p.x > x0) || (sides.left && p.x < x0))
      && Disc(r, Abs(p.x - x0), Rise(y0, delta, p.y)) then 1 else 0
  }

  lemma DiscBounded(r: nat, a: nat, b: nat)
    requires Disc(r, a, b)
    ensures a <= r && b <= r
  {
    SqMono(0, Min(a, b));
    if Max(a, b) > r {
      SqMono(r + 1, Max(a, b));
    }
  }

  lemma HelperPixels(x0: int, y0: int, r: nat, sides: Sides, delta: int, n: nat, p: Point)
    requires Reached(r, n) && ArcAt(r, n).y <= n
    ensures Touches(Lines(x0, y0, sides, delta, Columns(r, n)), p) == HelperTouches(x0, y0, r, sides, delta, p)
  {
    LinesTouch(x0, y0, sides, delta, Columns(r, n), p);
    HitsDisc(r, n, Abs(p.x - x0), Rise(y0, delta, p.y));
  }

  /** When the loop ends all columns are drawn but the middle one. */
  lemma HitsDisc(r: nat, n: nat, k: nat, b: nat)
    requires Reached(r, n) && ArcAt(r, n).y <= n
    ensures Hits(Columns(r, n), k, b) == if 1 <= k && Disc(r, k, b) then 1 else 0
  {
    ColumnsOnce(r, n, k, b);
    ArcInvariant(r, n);
    if Disc(r, k, b) {
      DiscBounded(r, k, b);
    }
  }

  /** The columns the helper draws: r on each side asked for. */
  predicate HelperColumn(x0: int, r: nat, sides: Sides, c: int) {
    ((sides.right && c > x0) || (sides.left && c < x0)) && Abs(c - x0) <= r
  }

  /** Whatever the offset, a column gets one line, be it an empty one. */
  lemma HelperLines(x0: int, y0: int, r: nat, sides: Sides, delta: int, n: nat, c: int)
    requires Reached(r, n) && ArcAt(r, n).y <= n
    ensures LinesAt(Lines(x0, y0, sides, delta, Columns(r, n)), c) == if HelperColumn(x0, r, sides, c) then 1 else 0
  {
    LinesInColumn(x0, y0, sides, delta, Columns(r, n), c);
    ColumnOfDisc(r, n, Abs(c - x0));
  }

  lemma HelperMeaning(x0: int, y0: int, r: nat, sides: Sides, delta: int, n: nat, lines: seq<VLine>)
    requires Reached(r, n) && ArcAt(r, n).y <= n
    requires lines == Lines(x0, y0, sides, delta, Columns(r, n))
    ensures IsHelper(lines, x0, y0, r, sides, delta)
  {
    forall p
      ensures Touches(lines, p) == HelperTouches(x0, y0, r, sides, delta, p)
    {
      HelperPixels(x0, y0, r, sides, delta, n, p);
    }
    forall c
      ensures LinesAt(lines, c) == if HelperColumn(x0, r, sides, c) then 1 else 0
    {
      HelperLines(x0, y0, r, sides, delta, n, c);
    }
    ColumnsBounded(r, n);
    LinesReaching(x0, y0, r, sides, delta, Columns(r, n));
  }

  lemma ColumnOfDisc(r: nat, n: nat, k: nat)
    requires Reached(r, n) && ArcAt(r, n).y <= n
    ensures Hits(Columns(r, n), k, 0) == if 1 <= k <= r then 1 else 0
  {
    HitsDisc(r, n, k, 0);
    DiscAxis(r, k);
    assert Disc(r, k, 0) <==> Disc(r, 0, k);
  }

  // ------------------------------------------------ fillCircle, fillRoundRect

  predicate Within(a: int, lo: int, n: int) {
    lo <= a < lo + n
  }

  /** Every pixel of the disc is drawn exactly once, and no other pixel. */
  method FillCircle(x0: int16, y0: int16, r: int16) returns (lines: seq<VLine>)
    requires 0 <= r <= 16383
    requires Fits(x0 - r) && Fits(x0 + r) && Fits(y0 - r)
    ensures forall p :: Touches(lines, p) == if Disc(r, Abs(p.x - x0), Abs(p.y - y0)) then 1 else 0
    ensures forall c :: LinesAt(lines, c) == if Abs(c - x0) <= r then 1 else 0
    ensures AllCross(lines, y0)
  {
    var middle := [WriteFastVLine(x0, y0 - r, 2 * r + 1)];
    var sides := FillCircleHelper(x0, y0, r, 3, 0);
    SideMasks();
    lines := middle + sides;
    forall p
      ensures Touches(lines, p) == if Disc(r, Abs(p.x - x0), Abs(p.y - y0)) then 1 else 0
    {
      CirclePixels(x0, y0, r, middle, sides, p);
    }
    forall c
      ensures LinesAt(lines, c) == if Abs(c - x0) <= r then 1 else 0
    {
      CircleColumns(x0, y0, r, middle, sides, c);
    }
  }

  lemma CirclePixels(x0: int, y0: int, r: nat, middle: seq<VLine>, sides: seq<VLine>, p: Point)
    requires middle == [VLine(x0, y0 - r, 2 * r + 1)]
    requires Touches(sides, p) == HelperTouches(x0, y0, r, Sides(true, true), 0, p)
    ensures Touches(middle + sides, p) == if Disc(r, Abs(p.x - x0), Abs(p.y - y0)) then 1 else 0
  {
    TouchesConcat(middle, sides, p);
    assert Touches(middle, p) == if Covers(middle[0], p) then 1 else 0;
    DiscAxis(r, Abs(p.y - y0));
  }

  lemma CircleColumns(x0: int, y0: int, r: nat, middle: seq<VLine>, sides: seq<VLine>, c: int)
    requires middle == [VLine(x0, y0 - r, 2 * r + 1)]
    requires LinesAt(sides, c) == if HelperColumn(x0, r, Sides(true, true), c) then 1 else 0
    ensures LinesAt(middle + sides, c) == if Abs(c - x0) <= r then 1 else 0
  {
    LinesAtConcat(middle, sides, c);
    assert LinesAt(middle, c) == if c == x0 then 1 else 0;
  }

  lemma DiscAxis(r: nat, b: nat)
    ensures Disc(r, 0, b) <==> b <= r
  {
    if b <= r {
      SqMono(b, r);
    } else {
      DiscBoundedOn(r, b);
    }
  }

  lemma DiscBoundedOn(r: nat, b: nat)
    requires r < b
    ensures !Disc(r, 0, b)
  {
    SqMono(r + 1, b);
  }

  /** The rectangle, once over, with one line for each of its columns. */
  ghost predicate IsRect(lines: seq<VLine>, x: int, y: int, w: int, h: int) {
    && (forall p :: Touches(lines, p) == if Within(p.x, x, w) && Within(p.y, y, h) then 1 else 0)
    && (forall c :: LinesAt(lines, c) == if Within(c, x, w) then 1 else 0)
    && (forall l :: l in lines ==> Within(l.x, x, w) && l.y == y && l.h == h)
  }

  method FillRect(x: int16, y: int16, w: int16, h: int16) returns (lines: seq<VLine>)
    requires Fits(x + w)
    ensures IsRect(lines, x, y, w, h)
  {
    var i: int16 := x;
    lines := [];
    while i < x + w
      invariant x <= i && (i <= x + w || i == x)
      invariant forall p :: Touches(lines, p) == if x <= p.x < i && Within(p.y, y, h) then 1 else 0
      invariant forall c :: LinesAt(lines, c) == if x <= c < i then 1 else 0
      invariant forall l :: l in lines ==> Within(l.x, x, w) && l.y == y && l.h == h
    {
      OneMoreLine(lines, VLine(i, y, h));
      lines := lines + [WriteFastVLine(i, y, h)];
      i := i + 1;
    }
  }

  /** A rounded rectangle: the points whose distance from the inner rectangle,
      the one r pixels in from every edge, lies in the disc of radius r. */
  predicate RoundRect(x: int, y: int, w: int, h: int, r: nat, p: Point) {
    Disc(r, Rise(x + r, w - 2 * r - 1, p.x), Rise(y + r, h - 2 * r - 1, p.y))
  }

  /** A line in the rectangle, though it may be empty. */
  predicate InsideRect(l: VLine, x: int, y: int, w: int, h: int) {
    Within(l.x, x, w) && y <= l.y && 0 <= l.h && l.y + l.h <= y + h
  }

  /** The rounded rectangle, once over; each column of the rectangle has one line,
      no other column has any, and no line leaves the rectangle. */
  ghost predicate IsRoundRect(lines: seq<VLine>, x: int, y: int, w: int, h: int, r: nat) {
    && (forall p :: Touches(lines, p) == if RoundRect(x, y, w, h, r, p) then 1 else 0)
    && (forall c :: LinesAt(lines, c) == if Within(c, x, w) then 1 else 0)
    && (forall l :: l in lines ==> InsideRect(l, x, y, w, h))
  }

  /** Body and corners share no pixel or column, and leave none out. The radius
      is the one asked for where there is room for it, and otherwise the largest
      there is room for. */
  method FillRoundRect(x: int16, y: int16, w: int16, h: int16, r: int16) returns (lines: seq<VLine>)
    requires 0 <= w && 0 <= h && 0 <= r
    requires Fits(x + w - 1) && Fits(x + w) && Fits(y + h)
    ensures 2 * r <= w && 2 * r <= h ==> IsRoundRect(lines, x, y, w, h, r)
    ensures forall k: nat :: !(2 * r <= w && 2 * r <= h) && 2 * k <= w && 2 * k <= h && (w < 2 * k + 2 || h < 2 * k + 2) ==>
              IsRoundRect(lines, x, y, w, h, k)
  {
    var rad := ClampRadius(w, h, r);
    lines := FillParts(x, y, w, h, rad);
  }

  method FillParts(x: int16, y: int16, w: int16, h: int16, rad: int16) returns (lines: seq<VLine>)
    requires 0 <= rad && 2 * rad <= w && 2 * rad <= h
    requires Fits(x + w - 1) && Fits(x + w) && Fits(y + h)
    ensures IsRoundRect(lines, x, y, w, h, rad)
  {
    var body := FillRect(x + rad, y, w - 2 * rad, h);
    var right := FillRight(x + w - rad - 1, y + rad, rad, h - 2 * rad - 1);
    var left := FillLeft(x + rad, y + rad, rad, h - 2 * rad - 1);
    lines := body + right + left;
    RoundRectLines(x, y, w, h, rad, body, right, left);
  }

  /** There is one largest radius, and it is less than one there is no room for. */
  lemma LargestRadius(w: nat, h: nat, r: nat) returns (k: nat)
    requires !(2 * r <= w && 2 * r <= h)
    ensures k < r && 2 * k <= w && 2 * k <= h && (w < 2 * k + 2 || h < 2 * k + 2)
    ensures forall l :: 2 * l <= w && 2 * l <= h && (w < 2 * l + 2 || h < 2 * l + 2) ==> l == k
  {
    k := Min(w, h) / 2;
  }

  /** The rounded rectangle in numbers: how far the point is from the columns and
      rows at least k from the edges, and that distance against k. */
  lemma RoundRectMeaning(x: int, y: int, w: nat, h: nat, k: nat, p: Point)
    requires 2 * k <= w && 2 * k <= h
    ensures var a := if p.x < x + k then x + k - p.x else if p.x >= x + w - k then p.x - (x + w - k - 1) else 0;
      var b := if p.y < y + k then y + k - p.y else if p.y >= y + h - k then p.y - (y + h - k - 1) else 0;
      RoundRect(x, y, w, h, k, p) <==> a * a + b * b < k * k + Max(a, b) || (a == 0 && b == 0)
  {
    var a, b := Rise(x + k, w - 2 * k - 1, p.x), Rise(y + k, h - 2 * k - 1, p.y);
    SqIsSquare(a);
    SqIsSquare(b);
    SqIsSquare(k);
  }

  /** Only with radius 0 is the corner of the rectangle painted. */
  lemma CornerLeftOut(x: int, y: int, w: nat, h: nat, k: nat)
    requires 0 < w && 0 < h && 2 * k <= w && 2 * k <= h
    ensures RoundRect(x, y, w, h, k, Point(x, y)) <==> k == 0
  {
    SqIsSquare(k);
    if k > 0 {
      ProductMono(1, k, k);
    }
  }

  method ClampRadius(w: int16, h: int16, r: int16) returns (rad: int16)
    requires 0 <= w && 0 <= h && 0 <= r
    ensures 0 <= rad && 2 * rad <= w && 2 * rad <= h
    ensures if 2 * r <= w && 2 * r <= h then rad == r else w < 2 * rad + 2 || h < 2 * rad + 2
  {
    var max_radius: int16 := (if w < h then w else h) / 2;
    rad := r;
    if rad > max_radius {
      rad := max_radius;
    }
  }

  /** The two calls for the corners. */
  method FillRight(x0: int16, y0: int16, r: int16, offset: int16) returns (lines: seq<VLine>)
    requires 0 <= r <= 16384 && Fits(x0 + r) && Fits(y0 - r) && Fits(offset + 1) && Fits(2 * r + offset + 1)
    ensures IsHelper(lines, x0, y0, r, RIGHT, offset)
  {
    SideMasks();
    lines := FillCircleHelper(x0, y0, r, 1, offset);
  }

  method FillLeft(x0: int16, y0: int16, r: int16, offset: int16) returns (lines: seq<VLine>)
    requires 0 <= r <= 16384 && Fits(x0 - r) && Fits(y0 - r) && Fits(offset + 1) && Fits(2 * r + offset + 1)
    ensures IsHelper(lines, x0, y0, r, LEFT, offset)
  {
    SideMasks();
    lines := FillCircleHelper(x0, y0, r, 2, offset);
  }

  lemma RoundRectLines(x: int, y: int, w: nat, h: nat, r: nat, body: seq<VLine>, right: seq<VLine>, left: seq<VLine>)
    requires 2 * r <= w && 2 * r <= h && IsRect(body, x + r, y, w - 2 * r, h)
    requires IsHelper(right, x + w - r - 1, y + r, r, RIGHT, h - 2 * r - 1)
    requires IsHelper(left, x + r, y + r, r, LEFT, h - 2 * r - 1)
    ensures IsRoundRect(body + right + left, x, y, w, h, r)
  {
    RoundRectWhole(x, y, w, h, r, body, right, left);
    RoundRectColumns(x, w, r, body, right, left);
    RoundRectInside(x, y, w, h, r, body, right, left, body + right + left);
  }

  lemma RoundRectWhole(x: int, y: int, w: nat, h: nat, r: nat, body: seq<VLine>, right: seq<VLine>, left: seq<VLine>)
    requires 2 * r <= w && 2 * r <= h
    requires forall p :: Touches(body, p) == if Within(p.x, x + r, w - 2 * r) && Within(p.y, y, h) then 1 else 0
    requires forall p :: Touches(right, p) == HelperTouches(x + w - r - 1, y + r, r, RIGHT, h - 2 * r - 1, p)
    requires forall p :: Touches(left, p) == HelperTouches(x + r, y + r, r, LEFT, h - 2 * r - 1, p)
    ensures forall p :: Touches(body + right + left, p) == if RoundRect(x, y, w, h, r, p) then 1 else 0
  {
    forall p
      ensures Touches(body + right + left, p) == if RoundRect(x, y, w, h, r, p) then 1 else 0
    {
      TouchesConcat(body + right, left, p);
      TouchesConcat(body, right, p);
      RoundRectParts(x, y, w, h, r, p);
    }
  }

  lemma RoundRectColumns(x: int, w: nat, r: nat, body: seq<VLine>, right: seq<VLine>, left: seq<VLine>)
    requires 2 * r <= w
    requires forall c :: LinesAt(body, c) == if Within(c, x + r, w - 2 * r) then 1 else 0
    requires forall c :: LinesAt(right, c) == if HelperColumn(x + w - r - 1, r, RIGHT, c) then 1 else 0
    requires forall c :: LinesAt(left, c) == if HelperColumn(x + r, r, LEFT, c) then 1 else 0
    ensures forall c :: LinesAt(body + right + left, c) == if Within(c, x, w) then 1 else 0
  {
    forall c
      ensures LinesAt(body + right + left, c) == if Within(c, x, w) then 1 else 0
    {
      LinesAtConcat(body + right, left, c);
      LinesAtConcat(body, right, c);
    }
  }

  lemma RoundRectInside(x: int, y: int, w: nat, h: nat, r: nat, body: seq<VLine>, right: seq<VLine>, left: seq<VLine>,
                        lines: seq<VLine>)
    requires 2 * r <= h && lines == body + right + left
    requires forall c :: LinesAt(lines, c) == if Within(c, x, w) then 1 else 0
    requires forall l :: l in body ==> l.y == y && l.h == h
    requires forall l :: l in right ==> Reaching(l, x + w - r - 1, y + r, r, h - 2 * r - 1)
    requires forall l :: l in left ==> Reaching(l, x + r, y + r, r, h - 2 * r - 1)
    ensures forall l :: l in lines ==> InsideRect(l, x, y, w, h)
  {
    forall l | l in lines
      ensures InsideRect(l, x, y, w, h)
    {
      LineCounted(lines, l);
    }
  }

  lemma {:induction false} LineCounted(lines: seq<VLine>, l: VLine)
    requires l in lines
    ensures LinesAt(lines, l.x) > 0
  {
    var n := |lines| - 1;
    if lines[n] != l {
      LineCounted(lines[..n], l);
    }
  }

  lemma RoundRectParts(x: int, y: int, w: nat, h: nat, r: nat, p: Point)
    requires 2 * r <= w && 2 * r <= h
    ensures (if Within(p.x, x + r, w - 2 * r) && Within(p.y, y, h) then 1 else 0)
            + HelperTouches(x + w - r - 1, y + r, r, RIGHT, h - 2 * r - 1, p)
            + HelperTouches(x + r, y + r, r, LEFT, h - 2 * r - 1, p)
            == if RoundRect(x, y, w, h, r, p) then 1 else 0
  {
    var b := Rise(y + r, h - 2 * r - 1, p.y);
    DiscAxis(r, b);
  }

  lemma {:induction false} LineTouches(lines: seq<VLine>, l: VLine, p: Point)
    requires l in lines && Covers(l, p)
    ensures Touches(lines, p) > 0
  {
    var n := |lines| - 1;
    if lines[n] != l {
      LineTouches(lines[..n], l, p);
    }
  }

  /** The lines of a filled disc stay in its bounding square. */
  lemma FillInSquare(x0: int, y0: int, r: nat, lines: seq<VLine>, l: VLine)
    requires forall p :: Touches(lines, p) == if Disc(r, Abs(p.x - x0), Abs(p.y - y0)) then 1 else 0
    requires AllCross(lines, y0) && l in lines
    ensures Abs(l.x - x0) <= r && y0 - r <= l.y && l.h > 0 && l.y + l.h - 1 <= y0 + r
  {
    assert Covers(l, Point(l.x, y0));
    InSquare(x0, y0, r, lines, l, Point(l.x, l.y));
    InSquare(x0, y0, r, lines, l, Point(l.x, l.y + l.h - 1));
  }

  lemma InSquare(x0: int, y0: int, r: nat, lines: seq<VLine>, l: VLine, p: Point)
    requires Touches(lines, p) == if Disc(r, Abs(p.x - x0), Abs(p.y - y0)) then 1 else 0
    requires l in lines && Covers(l, p)
    ensures Abs(p.x - x0) <= r && Abs(p.y - y0) <= r
  {
    LineTouches(lines, l, p);
    DiscBounded(r, Abs(p.x - x0), Abs(p.y - y0));
  }

  // ------------------------------------------------------- outline and fill

  /** Where a column of the disc ends, there is a rim pixel. */
  lemma DiscEndsOnRing(r: nat, a: nat, b: nat)
    requires Disc(r, a, b) && !Disc(r, a, b + 1)
    ensures Ring(r, a, b)
  {
    assert Sq(b + 1) == Sq(b) + 2 * b + 1;
  }

  /** drawCircle and fillCircle with the same arguments: the outline lies in
      the fill, and the top and bottom pixels of every column are outline. */
  lemma OutlineAndFill(x0: int, y0: int, r: nat, pixels: seq<Point>, lines: seq<VLine>, p: Point)
    requires forall q :: q in pixels <==> Ring(r, Abs(q.x - x0), Abs(q.y - y0))
    requires forall q :: Touches(lines, q) == if Disc(r, Abs(q.x - x0), Abs(q.y - y0)) then 1 else 0
    ensures p in pixels ==> Touches(lines, p) == 1
    ensures Touches(lines, p) == 1 && Touches(lines, Point(p.x, p.y - 1)) == 0 ==> p in pixels
    ensures Touches(lines, p) == 1 && Touches(lines, Point(p.x, p.y + 1)) == 0 ==> p in pixels
  {
    ColumnEnd(r, Abs(p.x - x0), p.y - y0, -1);
    ColumnEnd(r, Abs(p.x - x0), p.y - y0, 1);
  }

  lemma ColumnEnd(r: nat, a: nat, b: int, d: int)
    requires d == -1 || d == 1
    ensures Disc(r, a, Abs(b)) && !Disc(r, a, Abs(b + d)) ==> Ring(r, a, Abs(b))
  {
    if Disc(r, a, Abs(b)) && !Disc(r, a, Abs(b + d)) {
      if Abs(b + d) == Abs(b) + 1 {
        DiscEndsOnRing(r, a, Abs(b));
      } else {
        DiscDown(r, a, Abs(b + d), Abs(b));
      }
    }
  }

  lemma DiscDown(r: nat, a: nat, b: nat, c: nat)
    requires Disc(r, a, c) && b <= c
    ensures Disc(r, a, b)
  {
    SqMono(b, c);
    SqMono(Min(a, b), Max(a, b));
    SqMono(Min(a, c), Max(a, c));
    if b == 0 && a > 0 {
      SqMono(0, a);
    }
  }

  /** The disc is round: it holds every point within r of the centre, no point
      as far as r + 1/2, and its rim is within max(a, b) of r squared. */
  lemma DiscIsRound(r: nat, a: nat, b: nat)
    ensures Disc(r, a, b) <==> a * a + b * b < r * r + Max(a, b) || (a == 0 && b == 0)
    ensures Ring(r, a, b) <==> Disc(r, a, b) && r * r <= a * a + b * b + Max(a, b)
    ensures a * a + b * b <= r * r ==> Disc(r, a, b)
    ensures Disc(r, a, b) && r > 0 ==> a * a + b * b < r * r + r
    ensures Ring(r, a, b) ==> Abs(a * a + b * b - r * r) <= Max(a, b)
  {
    SqIsSquare(a);
    SqIsSquare(b);
    SqIsSquare(r);
    SqMono(0, r);
    if Disc(r, a, b) {
      DiscBounded(r, a, b);
    }
  }
}
