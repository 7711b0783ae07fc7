/** Adafruit_GFX::fillTriangle, as the horizontal lines it hands to
    writeFastHLine. */
module Triangle {
  import opened CInts
  import opened Line

  /** One call of writeFastHLine(x, y, w, color). */
  datatype HLine = HLine(x: int, y: int, w: int)

  predicate Covers(l: HLine, p: Point) {
    p.y == l.y && l.x <= p.x < l.x + l.w
  }

  // ---------------------------------------------------------- scanlines

  /** Where the edge pq meets row y, cut off toward p.x. */
  function Crossing(p: Point, q: Point, y: int): int
    requires p.y < q.y && p.y <= y
  {
    p.x + Quot(Times(y - p.y, q.x - p.x), q.y - p.y)
  }

  /** The source's own longhand formula for what its accumulators compute. */
  lemma CrossingLonghand(p: Point, q: Point, y: int)
    requires p.y < q.y && p.y <= y
    ensures Crossing(p, q, y) == p.x + Quot((q.x - p.x) * (y - p.y), q.y - p.y)
  {
    TimesIsProduct(y - p.y, q.x - p.x);
    assert (q.x - p.x) * (y - p.y) == (y - p.y) * (q.x - p.x);
  }

  predicate Sorted(p0: Point, p1: Point, p2: Point) {
    p0.y <= p1.y <= p2.y
  }

  /** The broken side 0-1-2: its upper edge down to vertex 1, its lower edge from
      vertex 1 on, unless that edge is flat. */
  function BrokenSide(p0: Point, p1: Point, p2: Point, y: int): int
    requires Sorted(p0, p1, p2) && p0.y < p2.y && p0.y <= y <= p2.y
  {
    if y < p1.y || p1.y == p2.y then Crossing(p0, p1, y) else Crossing(p1, p2, y)
  }

  function Between(a: int, b: int, y: int): HLine {
    HLine(Min(a, b), y, Abs(b - a) + 1)
  }

  function Scanline(p0: Point, p1: Point, p2: Point, y: int): HLine
    requires Sorted(p0, p1, p2) && p0.y <= y <= p2.y
  {
    if p0.y == p2.y then
      var a, b := Min(p0.x, Min(p1.x, p2.x)), Max(p0.x, Max(p1.x, p2.x));
      HLine(a, y, b - a + 1)
    else
      Between(BrokenSide(p0, p1, p2, y), Crossing(p0, p2, y), y)
  }

  /** One line a row, from the top vertex to row y - 1. */
  function Scanlines(p0: Point, p1: Point, p2: Point, y: int): seq<HLine>
    requires Sorted(p0, p1, p2) && p0.y <= y <= p2.y + 1
    decreases y - p0.y
  {
    if y == p0.y then [] else Scanlines(p0, p1, p2, y - 1) + [Scanline(p0, p1, p2, y - 1)]
  }

  function Sort3(p: Point, q: Point, r: Point): (s: (Point, Point, Point))
    ensures Sorted(s.0, s.1, s.2)
  {
    var (a, b) := if p.y > q.y then (q, p) else (p, q);
    var (b', c) := if b.y > r.y then (r, b) else (b, r);
    if a.y > b'.y then (b', a, c) else (a, b', c)
  }

  function TriangleLines(p: Point, q: Point, r: Point): seq<HLine> {
    var (p0, p1, p2) := Sort3(p, q, r);
    Scanlines(p0, p1, p2, p2.y + 1)
  }

  // ------------------------------------------------------------ the method

  lemma {:induction false} TimesRange(n: nat, d: int)
    requires -0x8000 <= d <= 0x8000
    ensures -0x8000 * n <= Times(n, d) <= 0x8000 * n
  {
    if n > 0 {
      TimesRange(n - 1, d);
    }
  }

  lemma TimesWithin(d: nat, t: nat, n: nat)
    requires t <= n && n > 0
    ensures 0 <= Times(t, d) && 0 <= Times(n, d)
    ensures 0 <= Times(t, d) / n <= d && Times(n, d) / n == d
  {
    TimesIsProduct(t, d);
    TimesIsProduct(n, d);
    ProductMono(0, t, d);
    ProductMono(t, n, d);
    DivUnique(n * d, n, d);
    DivMono(t * d, n * d, n);
  }

  lemma {:induction false} TimesNegate(n: nat, d: int)
    ensures Times(n, d) == -Times(n, -d)
  {
    if n > 0 {
      TimesNegate(n - 1, d);
    }
  }

  /** An edge stays within the columns of its two ends. */
  lemma CrossingBounds(p: Point, q: Point, y: int)
    requires p.y < q.y && p.y <= y <= q.y
    ensures Min(p.x, q.x) <= Crossing(p, q, y) <= Max(p.x, q.x)
    ensures Crossing(p, q, p.y) == p.x && Crossing(p, q, q.y) == q.x
  {
    var t, n, d := y - p.y, q.y - p.y, q.x - p.x;
    TimesWithin(Abs(d), t, n);
    if d < 0 {
      TimesNegate(t, d);
      TimesNegate(n, d);
      assert Quot(Times(t, d), n) == -(Times(t, -d) / n);
      assert Quot(Times(n, d), n) == -(Times(n, -d) / n);
    }
  }

  lemma DivMono(a: int, b: int, d: int)
    requires 0 <= a <= b && d > 0
    ensures 0 <= a / d <= b / d
  {
    if a / d > b / d {
      ProductMono(b / d + 1, a / d, d);
    }
    if a / d < 0 {
      ProductMono(a / d + 1, 0, d);
    }
  }

  /** Coordinates whose differences the 16-bit locals can hold. */
  predicate Fits(p: Point, q: Point) {
    -0x8000 <= p.x < 0x8000 && -0x8000 < p.y < 0x7FFF && Abs(p.x - q.x) < 0x7FFF && Abs(p.y - q.y) < 0x8000
  }

  predicate FitsAll(p: Point, q: Point, r: Point) {
    Fits(p, q) && Fits(q, r) && Fits(r, p)
  }

  function WriteFastHLine(x: int16, y: int16, w: int16): HLine {
    HLine(x, y, w)
  }

  method FillTriangle(v0: Point, v1: Point, v2: Point) returns (lines: seq<HLine>)
    requires FitsAll(v0, v1, v2)
    ensures lines == TriangleLines(v0, v1, v2)
  {
    var p0, p1, p2 := SortByRow(v0, v1, v2);
    if p0.y == p2.y {
      lines := FlatTriangle(p0, p1, p2);
    } else {
      var last: int16 := if p1.y == p2.y then p1.y else p1.y - 1;
      lines := UpperPart(p0, p1, p2, last);
      lines := LowerPart(p0, p1, p2, last + 1, lines);
    }
  }

  method SortByRow(v0: Point, v1: Point, v2: Point) returns (p0: Point, p1: Point, p2: Point)
    requires FitsAll(v0, v1, v2)
    ensures (p0, p1, p2) == Sort3(v0, v1, v2) && FitsAll(p0, p1, p2)
  {
    p0, p1, p2 := v0, v1, v2;
    if p0.y > p1.y {
      p0, p1 := p1, p0;
    }
    if p1.y > p2.y {
      p2, p1 := p1, p2;
    }
    if p0.y > p1.y {
      p0, p1 := p1, p0;
    }
  }

  method FlatTriangle(p0: Point, p1: Point, p2: Point) returns (lines: seq<HLine>)
    requires FitsAll(p0, p1, p2) && p0.y == p1.y == p2.y
    ensures lines == Scanlines(p0, p1, p2, p2.y + 1)
  {
    var a: int16, b: int16 := p0.x, p0.x;
    if p1.x < a {
      a := p1.x;
    } else if p1.x > b {
      b := p1.x;
    }
    if p2.x < a {
      a := p2.x;
    } else if p2.x > b {
      b := p2.x;
    }
    lines := [WriteFastHLine(a, p0.y, b - a + 1)];
    assert Scanlines(p0, p1, p2, p2.y) == [];
  }

  /** The column where an edge crosses row y, from its accumulator. */
  method EdgeColumn(ghost p: Point, ghost q: Point, x: int16, s: int32, dy: int16, y: int16) returns (a: int16)
    requires Fits(p, q) && Fits(q, p)
    requires p.y < q.y && p.y <= y <= q.y
    requires x == p.x && dy == q.y - p.y && s == Times(y - p.y, q.x - p.x)
    ensures a == Crossing(p, q, y) && Min(p.x, q.x) <= a <= Max(p.x, q.x)
  {
    CrossingBounds(p, q, y);
    a := x + Quot(s, dy);
  }

  /** The body of both loops: one row, between the edge p-q of the broken side
      and the edge 0-2. */
  method WriteRow(p0: Point, ghost p1: Point, ghost p2: Point, p: Point, ghost q: Point,
                  sa: int32, dya: int16, sb: int32, dy02: int16, y: int16) returns (line: HLine)
    requires FitsAll(p0, p1, p2)
    requires Sorted(p0, p1, p2) && p0.y < p2.y && p.y < q.y && p.y <= y <= q.y
    requires (p, q) == if y < p1.y || p1.y == p2.y then (p0, p1) else (p1, p2)
    requires dya == q.y - p.y && sa == Times(y - p.y, q.x - p.x)
    requires dy02 == p2.y - p0.y && sb == Times(y - p0.y, p2.x - p0.x)
    ensures line == Scanline(p0, p1, p2, y)
  {
    var a := EdgeColumn(p, q, p.x, sa, dya, y);
    var b := EdgeColumn(p0, p2, p0.x, sb, dy02, y);
    if a > b {
      a, b := b, a;
    }
    line := WriteFastHLine(a, y, b - a + 1);
  }

  method UpperPart(p0: Point, p1: Point, p2: Point, last: int16) returns (lines: seq<HLine>)
    requires FitsAll(p0, p1, p2)
    requires Sorted(p0, p1, p2) && p0.y < p2.y && last == if p1.y == p2.y then p1.y else p1.y - 1
    ensures lines == Scanlines(p0, p1, p2, last + 1)
  {
    var dx01: int16, dy01: int16 := p1.x - p0.x, p1.y - p0.y;
    var dx02: int16, dy02: int16 := p2.x - p0.x, p2.y - p0.y;
    var sa: int32, sb: int32 := 0, 0;
    var y: int16 := p0.y;
    lines := [];
    while y <= last
      invariant p0.y <= y <= last + 1
      invariant sa == Times(y - p0.y, dx01) && sb == Times(y - p0.y, dx02)
      invariant lines == Scanlines(p0, p1, p2, y)
    {
      var line := WriteRow(p0, p1, p2, p0, p1, sa, dy01, sb, dy02, y);
      sa := Advance(sa, dx01, y - p0.y);
      sb := Advance(sb, dx02, y - p0.y);
      lines := lines + [line];
      y := y + 1;
    }
  }

  method LowerPart(p0: Point, p1: Point, p2: Point, from: int16, upper: seq<HLine>) returns (lines: seq<HLine>)
    requires FitsAll(p0, p1, p2)
    requires Sorted(p0, p1, p2) && p0.y < p2.y && from == if p1.y == p2.y then p1.y + 1 else p1.y
    requires upper == Scanlines(p0, p1, p2, from)
    ensures lines == Scanlines(p0, p1, p2, p2.y + 1)
  {
    var dx12: int16, dy12: int16 := p2.x - p1.x, p2.y - p1.y;
    var dx02: int16, dy02: int16 := p2.x - p0.x, p2.y - p0.y;
    var y: int16 := from;
    var sa: int32 := Product(dx12, y - p1.y);
    var sb: int32 := Product(dx02, y - p0.y);
    lines := upper;
    while y <= p2.y
      invariant from <= y <= p2.y + 1
      invariant sa == Times(y - p1.y, dx12) && sb == Times(y - p0.y, dx02)
      invariant lines == Scanlines(p0, p1, p2, y)
    {
      var line := WriteRow(p0, p1, p2, p1, p2, sa, dy12, sb, dy02, y);
      sa := Advance(sa, dx12, y - p1.y);
      sb := Advance(sb, dx02, y - p0.y);
      lines := lines + [line];
      y := y + 1;
    }
  }

  /** `s += d`: the n-th addition leaves 32 bits to spare. */
  method Advance(s: int32, d: int16, ghost n: int) returns (s': int32)
    requires 0 <= n <= 0x8000 && s == Times(n, d)
    ensures s' == Times(n + 1, d)
  {
    TimesRange(n + 1, d);
    s' := s + d;
  }

  /** `(int32_t)d * n`. */
  method Product(d: int16, n: int) returns (p: int32)
    requires 0 <= n <= 0x8000
    ensures p == Times(n, d)
  {
    TimesIsProduct(n, d);
    TimesRange(n, d);
    p := d * n;
  }

  // ---------------------------------------------------------------- meaning

  /** One line a row, each at least a pixel wide and inside the bounding box. */
  lemma {:induction false} ScanlinesShape(p0: Point, p1: Point, p2: Point, y: int)
    requires Sorted(p0, p1, p2) && p0.y <= y <= p2.y + 1
    ensures var lines := Scanlines(p0, p1, p2, y);
      && |lines| == y - p0.y
      && forall i :: 0 <= i < |lines| ==>
           && lines[i] == Scanline(p0, p1, p2, p0.y + i)
           && lines[i].y == p0.y + i && lines[i].w >= 1
           && Min(p0.x, Min(p1.x, p2.x)) <= lines[i].x
           && lines[i].x + lines[i].w - 1 <= Max(p0.x, Max(p1.x, p2.x))
    decreases y - p0.y
  {
    if y > p0.y {
      ScanlinesShape(p0, p1, p2, y - 1);
      ScanlineShape(p0, p1, p2, y - 1);
    }
  }

  lemma ScanlineShape(p0: Point, p1: Point, p2: Point, y: int)
    requires Sorted(p0, p1, p2) && p0.y <= y <= p2.y
    ensures var l := Scanline(p0, p1, p2, y);
      && l.y == y && l.w >= 1
      && Min(p0.x, Min(p1.x, p2.x)) <= l.x && l.x + l.w - 1 <= Max(p0.x, Max(p1.x, p2.x))
  {
    if p0.y < p2.y {
      CrossingBounds(p0, p2, y);
      if y < p1.y || p1.y == p2.y {
        CrossingBounds(p0, p1, y);
      } else {
        CrossingBounds(p1, p2, y);
      }
    }
  }

  /** A flat edge meets vertex 1 from either side: its two ends can trade places. */
  lemma TieSymmetric(p0: Point, p1: Point, p2: Point, y: int)
    requires Sorted(p0, p1, p2) && p0.y <= y <= p2.y
    ensures p0.y == p1.y ==> Scanline(p0, p1, p2, y) == Scanline(p1, p0, p2, y)
    ensures p1.y == p2.y ==> Scanline(p0, p1, p2, y) == Scanline(p0, p2, p1, y)
  {
  }

  lemma {:induction false} TiesSymmetric(p0: Point, p1: Point, p2: Point, y: int)
    requires Sorted(p0, p1, p2) && p0.y <= y <= p2.y + 1
    ensures p0.y == p1.y ==> Scanlines(p0, p1, p2, y) == Scanlines(p1, p0, p2, y)
    ensures p1.y == p2.y ==> Scanlines(p0, p1, p2, y) == Scanlines(p0, p2, p1, y)
    decreases y - p0.y
  {
    if y > p0.y {
      TiesSymmetric(p0, p1, p2, y - 1);
      TieSymmetric(p0, p1, p2, y - 1);
    }
  }

  /** The same triangle, or the same with two level neighbours exchanged. */
  predicate UpToTie(s: (Point, Point, Point), t: (Point, Point, Point)) {
    || t == s
    || (s.0.y == s.1.y && t == (s.1, s.0, s.2))
    || (s.1.y == s.2.y && t == (s.0, s.2, s.1))
  }

  lemma SortUpToTie(p: Point, q: Point, r: Point)
    ensures UpToTie(Sort3(p, q, r), Sort3(q, p, r)) && UpToTie(Sort3(p, q, r), Sort3(p, r, q))
  {
  }

  lemma TieSameLines(s: (Point, Point, Point), t: (Point, Point, Point))
    requires Sorted(s.0, s.1, s.2) && UpToTie(s, t)
    ensures Sorted(t.0, t.1, t.2) && Scanlines(s.0, s.1, s.2, s.2.y + 1) == Scanlines(t.0, t.1, t.2, t.2.y + 1)
  {
    TiesSymmetric(s.0, s.1, s.2, s.2.y + 1);
  }

  /** Any two neighbours can trade places. */
  lemma Exchange(p: Point, q: Point, r: Point)
    ensures TriangleLines(p, q, r) == TriangleLines(q, p, r)
    ensures TriangleLines(p, q, r) == TriangleLines(p, r, q)
  {
    SortUpToTie(p, q, r);
    TieSameLines(Sort3(p, q, r), Sort3(q, p, r));
    TieSameLines(Sort3(p, q, r), Sort3(p, r, q));
  }

  /** The order of the vertices does not matter: the very same lines are drawn,
      in the same order. */
  lemma OrderIrrelevant(p: Point, q: Point, r: Point)
    ensures TriangleLines(p, q, r) == TriangleLines(p, r, q) == TriangleLines(q, p, r)
         == TriangleLines(q, r, p) == TriangleLines(r, p, q) == TriangleLines(r, q, p)
  {
    Exchange(p, q, r);
    Exchange(q, p, r);
    Exchange(p, r, q);
    Exchange(r, p, q);
  }

  // ------------------------------------------------- against the real triangle

  /** The lattice points of the closed triangle: on one side of all three edges. */
  predicate InTriangle(p: Point, q: Point, r: Point, t: Point) {
    && Min(p.x, Min(q.x, r.x)) <= t.x <= Max(p.x, Max(q.x, r.x))
    && Min(p.y, Min(q.y, r.y)) <= t.y <= Max(p.y, Max(q.y, r.y))
    && ((Cross(p, q, t) >= 0 && Cross(q, r, t) >= 0 && Cross(r, p, t) >= 0)
        || (Cross(p, q, t) <= 0 && Cross(q, r, t) <= 0 && Cross(r, p, t) <= 0))
  }

  /** The column c in which the edge from p down to q is drawn on row y: on the
      edge or beside it toward p.x, by less than a pixel. */
  predicate DrawnColumn(p: Point, q: Point, y: int, c: int) {
    var d := Cross(p, q, Point(c, y));
    Abs(d) < q.y - p.y && (q.x >= p.x ==> d >= 0) && (q.x <= p.x ==> d <= 0)
  }

  /** That is one column. */
  lemma ColumnUnique(p: Point, q: Point, y: int, c: int, c': int)
    requires p.y < q.y && DrawnColumn(p, q, y, c) && DrawnColumn(p, q, y, c')
    ensures c == c'
  {
    var h := q.y - p.y;
    assert Cross(p, q, Point(c, y)) - Cross(p, q, Point(c', y)) == (c' - c) * h;
    if c < c' {
      ProductMono(1, c' - c, h);
    } else if c' < c {
      ProductMono(c' - c, -1, h);
    }
  }

  /** Cutting off toward p.x never passes over a lattice point: whatever is on
      one side of the ideal edge is on the same side of the drawn one, and the
      division leaves the column on the edge or on p's side of it. */
  lemma EdgeSide(p: Point, q: Point, t: Point)
    requires p.y < q.y && p.y <= t.y
    ensures Cross(p, q, t) >= 0 ==> t.x <= Crossing(p, q, t.y)
    ensures Cross(p, q, t) <= 0 ==> t.x >= Crossing(p, q, t.y)
    ensures DrawnColumn(p, q, t.y, Crossing(p, q, t.y))
  {
    var n, h, d := t.y - p.y, q.y - p.y, q.x - p.x;
    TimesIsProduct(n, d);
    TimesNegate(n, d);
    TimesSign(n, d);
    QuotSide(Times(n, d), h, t.x - p.x);
    QuotRest(Times(n, d), h, Quot(Times(n, d), h));
    assert Cross(p, q, t) == Times(n, d) - h * (t.x - p.x);
    assert Cross(p, q, Point(Crossing(p, q, t.y), t.y)) == Times(n, d) - h * Quot(Times(n, d), h);
  }

  lemma {:induction false} TimesSign(n: nat, d: int)
    ensures d >= 0 ==> Times(n, d) >= 0
    ensures d <= 0 ==> Times(n, d) <= 0
  {
    if n > 0 {
      TimesSign(n - 1, d);
    }
  }

  lemma QuotSide(a: int, h: int, x: int)
    requires h > 0
    ensures a >= h * x ==> x <= Quot(a, h)
    ensures a <= h * x ==> x >= Quot(a, h)
  {
    if a >= 0 {
      DivSide(a, h, x);
    } else {
      DivSide(-a, h, -x);
      assert h * -x == -(h * x);
    }
  }

  /** What C's division leaves has the sign of the dividend. */
  lemma QuotRest(a: int, h: int, q: int)
    requires h > 0 && q == Quot(a, h)
    ensures Abs(a - h * q) < h
    ensures a >= 0 ==> a - h * q >= 0
    ensures a <= 0 ==> a - h * q <= 0
  {
    if a >= 0 {
      DivSide(a, h, 0);
    } else {
      var d := -a / h;
      DivSide(-a, h, 0);
      assert h * -d == -(h * d);
    }
  }

  lemma DivSide(a: nat, h: int, x: int)
    requires h > 0
    ensures a >= h * x ==> x <= a / h
    ensures a <= h * x ==> x >= a / h
    ensures 0 <= a - h * (a / h) < h
  {
    var d := a / h;
    assert a == h * d + a % h;
    if x > d {
      ProductMono(d + 1, x, h);
    }
    if x < d {
      ProductMono(x + 1, d, h);
    }
  }

  /** Every lattice point of the closed triangle is painted. */
  lemma CoversTriangle(p0: Point, p1: Point, p2: Point, t: Point)
    requires Sorted(p0, p1, p2) && InTriangle(p0, p1, p2, t)
    ensures Covers(Scanline(p0, p1, p2, t.y), t)
  {
    if p0.y < p2.y {
      CrossSymmetric(p0, p2, t);
      EdgeSide(p0, p2, t);
      if t.y < p1.y || p1.y == p2.y {
        EdgeSide(p0, p1, t);
      } else {
        EdgeSide(p1, p2, t);
      }
    }
  }

  /** A point no further right than the drawn edge is right of the ideal one by
      less than a pixel, if at all; and the same on the left. */
  lemma EdgeFringe(p: Point, q: Point, t: Point)
    requires p.y < q.y && p.y <= t.y
    ensures t.x <= Crossing(p, q, t.y) ==> Cross(p, q, t) > -(q.y - p.y)
    ensures t.x >= Crossing(p, q, t.y) ==> Cross(p, q, t) < q.y - p.y
  {
    var h, c := q.y - p.y, Crossing(p, q, t.y);
    EdgeSide(p, q, t);
    CrossAcross((q.x - p.x) * (t.y - p.y), h, c - p.x, t.x - p.x);
    assert Cross(p, q, t) == (q.x - p.x) * (t.y - p.y) - h * (t.x - p.x);
    assert Cross(p, q, Point(c, t.y)) == (q.x - p.x) * (t.y - p.y) - h * (c - p.x);
  }

  lemma CrossAcross(a: int, h: int, c: int, x: int)
    requires h > 0
    ensures x <= c ==> a - h * x >= a - h * c
    ensures x >= c ==> a - h * x <= a - h * c
  {
    if x <= c {
      ProductMono(x, c, h);
    } else {
      ProductMono(c, x, h);
    }
  }

  /** Two edges that leave a corner for rows h1 and h2, and a point of a row y
      that reaches neither end: between the two edges, it is also on the inner
      side of the third. */
  lemma ThirdSide(x: int, y: int, dx1: int, h1: int, dx2: int, h2: int)
    requires 0 <= y <= h1 <= h2 && h1 > 0
    ensures var a1, a2, c := dx1 * y - h1 * x, dx2 * y - h2 * x, (dx2 - dx1) * (y - h1) - (h2 - h1) * (x - dx1);
      && (0 < y && a1 <= 0 <= a2 ==> c <= 0)
      && (0 < y && a2 <= 0 <= a1 ==> c >= 0)
      && (0 == y && (a1 <= 0 <= a2 || a2 <= 0 <= a1) ==> x == 0)
  {
    var a1, a2, c := dx1 * y - h1 * x, dx2 * y - h2 * x, (dx2 - dx1) * (y - h1) - (h2 - h1) * (x - dx1);
    ThirdProduct(x, y, dx1, h1, dx2, h2);
    SignOf(y, c, h2 - y, a1, h1 - y, a2);
    if y == 0 {
      assert dx1 * y == 0 && dx2 * y == 0;
      if x > 0 {
        ProductMono(1, x, h1);
        ProductMono(1, x, h2);
      } else if x < 0 {
        ProductMono(x, -1, h1);
        ProductMono(x, -1, h2);
      }
    }
  }

  lemma ThirdProduct(x: int, y: int, dx1: int, h1: int, dx2: int, h2: int)
    ensures y * ((dx2 - dx1) * (y - h1) - (h2 - h1) * (x - dx1)) ==
            (h2 - y) * (dx1 * y - h1 * x) - (h1 - y) * (dx2 * y - h2 * x)
  {
  }

  lemma SignOf(y: int, c: int, m: nat, a: int, n: nat, b: int)
    requires y * c == m * a - n * b
    ensures 0 < y && a <= 0 <= b ==> c <= 0
    ensures 0 < y && b <= 0 <= a ==> c >= 0
  {
  }

  /** Within the angle at a corner, and no further than the nearer of the other
      two, is within the triangle: seen from the top corner, */
  lemma WedgeAbove(p0: Point, p1: Point, p2: Point, t: Point)
    requires p0.y < p1.y <= p2.y && p0.y <= t.y <= p1.y
    ensures var a, b, c := Cross(p0, p1, t), Cross(p0, p2, t), Cross(p1, p2, t);
      && (a <= 0 <= b ==> c <= 0 || t == p0)
      && (b <= 0 <= a ==> c >= 0 || t == p0)
  {
    var x, y, dx1, h1, dx2, h2 := t.x - p0.x, t.y - p0.y, p1.x - p0.x, p1.y - p0.y, p2.x - p0.x, p2.y - p0.y;
    ThirdSide(x, y, dx1, h1, dx2, h2);
    assert Cross(p1, p2, t) == (dx2 - dx1) * (y - h1) - (h2 - h1) * (x - dx1);
  }

  /** and from the bottom one. */
  lemma WedgeBelow(p0: Point, p1: Point, p2: Point, t: Point)
    requires p0.y <= p1.y < p2.y && p1.y <= t.y <= p2.y
    ensures var a, b, c := Cross(p1, p2, t), Cross(p0, p2, t), Cross(p0, p1, t);
      && (a <= 0 <= b ==> c <= 0 || t == p2)
      && (b <= 0 <= a ==> c >= 0 || t == p2)
  {
    var x, y, dx1, h1, dx2, h2 := p2.x - t.x, p2.y - t.y, p2.x - p1.x, p2.y - p1.y, p2.x - p0.x, p2.y - p0.y;
    ThirdSide(x, y, dx1, h1, dx2, h2);
    FromBelow(x, y, dx1, h1);
    FromBelow(x, y, dx2, h2);
    assert Cross(p1, p2, t) == dx1 * (h1 - y) - h1 * (dx1 - x);
    assert Cross(p0, p2, t) == dx2 * (h2 - y) - h2 * (dx2 - x);
    assert Cross(p0, p1, t) == (dx2 - dx1) * (h2 - y) - (h2 - h1) * (dx2 - x);
    FromBelow(x - dx1, y - h1, dx2 - dx1, h2 - h1);
  }

  lemma FromBelow(x: int, y: int, dx: int, h: int)
    ensures dx * (h - y) - h * (dx - x) == -(dx * y - h * x)
  {
  }

  /** What is painted outside the triangle: only points that lie less than a
      pixel, along their row, from one of the two edges that cross it. */
  lemma PaintedFringe(p0: Point, p1: Point, p2: Point, t: Point)
    requires Sorted(p0, p1, p2) && p0.y < p2.y && p0.y <= t.y <= p2.y
    requires Covers(Scanline(p0, p1, p2, t.y), t)
    ensures var (p, q) := if t.y < p1.y || p1.y == p2.y then (p0, p1) else (p1, p2);
      InTriangle(p0, p1, p2, t) || Abs(Cross(p, q, t)) < q.y - p.y || Abs(Cross(p0, p2, t)) < p2.y - p0.y
  {
    ScanlineShape(p0, p1, p2, t.y);
    EdgeFringe(p0, p2, t);
    CrossSymmetric(p0, p2, t);
    if t.y < p1.y || p1.y == p2.y {
      EdgeFringe(p0, p1, t);
      WedgeAbove(p0, p1, p2, t);
      VerticesInTriangle(p0, p1, p2);
      BetweenEdges(t.x, Crossing(p0, p1, t.y), Crossing(p0, p2, t.y), t.y);
    } else {
      EdgeFringe(p1, p2, t);
      WedgeBelow(p0, p1, p2, t);
      VerticesInTriangle(p0, p1, p2);
      BetweenEdges(t.x, Crossing(p1, p2, t.y), Crossing(p0, p2, t.y), t.y);
    }
  }

  lemma BetweenEdges(x: int, a: int, b: int, y: int)
    requires Covers(Between(a, b, y), Point(x, y))
    ensures a <= x <= b || b <= x <= a
  {
  }

  /** On a row the edge from p to q crosses, and along it less than a pixel away. */
  predicate NearEdge(p: Point, q: Point, t: Point) {
    Min(p.y, q.y) <= t.y <= Max(p.y, q.y) && Abs(Cross(p, q, t)) < Abs(q.y - p.y)
  }

  lemma PaintedOnly(p0: Point, p1: Point, p2: Point, t: Point)
    requires Sorted(p0, p1, p2) && p0.y <= t.y <= p2.y && Covers(Scanline(p0, p1, p2, t.y), t)
    ensures InTriangle(p0, p1, p2, t) || NearEdge(p0, p1, t) || NearEdge(p1, p2, t) || NearEdge(p0, p2, t)
  {
    if p0.y < p2.y {
      PaintedFringe(p0, p1, p2, t);
    }
  }

  lemma NearSymmetric(p: Point, q: Point, t: Point)
    ensures NearEdge(p, q, t) == NearEdge(q, p, t)
  {
    CrossSymmetric(p, q, t);
  }

  lemma SortKeepsEdges(p: Point, q: Point, r: Point, t: Point)
    ensures var (p0, p1, p2) := Sort3(p, q, r);
      (NearEdge(p0, p1, t) || NearEdge(p1, p2, t) || NearEdge(p0, p2, t)) ==
      (NearEdge(p, q, t) || NearEdge(q, r, t) || NearEdge(p, r, t))
  {
    NearSymmetric(p, q, t);
    NearSymmetric(q, r, t);
    NearSymmetric(p, r, t);
  }

  lemma SortKeepsTriangle(p: Point, q: Point, r: Point, t: Point)
    ensures var (p0, p1, p2) := Sort3(p, q, r); InTriangle(p, q, r, t) <==> InTriangle(p0, p1, p2, t)
  {
    CrossSymmetric(p, q, t);
    CrossSymmetric(q, r, t);
    CrossSymmetric(r, p, t);
  }

  lemma SortBounds(p: Point, q: Point, r: Point)
    ensures var (p0, p1, p2) := Sort3(p, q, r);
      && p0.y == Min(p.y, Min(q.y, r.y)) && p2.y == Max(p.y, Max(q.y, r.y))
      && Min(p0.x, Min(p1.x, p2.x)) == Min(p.x, Min(q.x, r.x))
      && Max(p0.x, Max(p1.x, p2.x)) == Max(p.x, Max(q.x, r.x))
  {
  }

  /** The edge between p and q, read downward, is drawn in column c of row y. */
  predicate EdgeDraws(p: Point, q: Point, y: int, c: int) {
    (p.y < q.y && p.y <= y <= q.y && DrawnColumn(p, q, y, c)) || (q.y < p.y && q.y <= y <= p.y && DrawnColumn(q, p, y, c))
  }

  predicate SomeEdgeDraws(p: Point, q: Point, r: Point, y: int, c: int) {
    EdgeDraws(p, q, y, c) || EdgeDraws(q, r, y, c) || EdgeDraws(p, r, y, c)
  }

  /** A line from the leftmost to the rightmost of the columns in which the edges
      that cross its row are drawn. */
  ghost predicate Spanned(p: Point, q: Point, r: Point, l: HLine) {
    && SomeEdgeDraws(p, q, r, l.y, l.x) && SomeEdgeDraws(p, q, r, l.y, l.x + l.w - 1)
    && forall c :: SomeEdgeDraws(p, q, r, l.y, c) ==> l.x <= c < l.x + l.w
  }

  lemma SortKeepsColumns(p: Point, q: Point, r: Point, y: int, c: int)
    ensures var (p0, p1, p2) := Sort3(p, q, r); SomeEdgeDraws(p, q, r, y, c) == SomeEdgeDraws(p0, p1, p2, y, c)
  {
  }

  /** The broken side has one column a row, by whichever edge one reckons it. */
  lemma BrokenColumn(p0: Point, p1: Point, p2: Point, y: int, c: int)
    requires Sorted(p0, p1, p2) && p0.y < p2.y && p0.y <= y <= p2.y
    ensures EdgeDraws(p0, p1, y, c) || EdgeDraws(p1, p2, y, c) <==> c == BrokenSide(p0, p1, p2, y)
  {
    if p0.y < p1.y && y <= p1.y {
      EdgeColumnIs(p0, p1, y, c);
      CrossingBounds(p0, p1, y);
    }
    if p1.y < p2.y && p1.y <= y {
      EdgeColumnIs(p1, p2, y, c);
      CrossingBounds(p1, p2, y);
    }
  }

  lemma EdgeColumnIs(p: Point, q: Point, y: int, c: int)
    requires p.y < q.y && p.y <= y <= q.y
    ensures EdgeDraws(p, q, y, c) <==> c == Crossing(p, q, y)
  {
    EdgeSide(p, q, Point(c, y));
    if DrawnColumn(p, q, y, c) {
      ColumnUnique(p, q, y, c, Crossing(p, q, y));
    }
  }

  lemma ScanlineColumns(p0: Point, p1: Point, p2: Point, y: int, c: int)
    requires Sorted(p0, p1, p2) && p0.y < p2.y && p0.y <= y <= p2.y
    ensures SomeEdgeDraws(p0, p1, p2, y, c) <==> c == BrokenSide(p0, p1, p2, y) || c == Crossing(p0, p2, y)
  {
    BrokenColumn(p0, p1, p2, y, c);
    EdgeColumnIs(p0, p2, y, c);
  }

  lemma RowSpanned(p: Point, q: Point, r: Point, y: int)
    requires Min(p.y, Min(q.y, r.y)) <= y <= Max(p.y, Max(q.y, r.y)) && !(p.y == q.y == r.y)
    ensures Spanned(p, q, r, RowOf(p, q, r, y))
  {
    var (p0, p1, p2) := Sort3(p, q, r);
    var l := RowOf(p, q, r, y);
    SortBounds(p, q, r);
    forall c
      ensures SomeEdgeDraws(p, q, r, y, c) <==> c == l.x || c == l.x + l.w - 1
      ensures SomeEdgeDraws(p, q, r, y, c) ==> l.x <= c < l.x + l.w
    {
      SortKeepsColumns(p, q, r, y, c);
      ScanlineColumns(p0, p1, p2, y, c);
    }
  }

  /** What fillTriangle paints, for vertices in any order: one line a row from
      the top vertex to the bottom one, none wider than the bounding box, each
      from edge to edge as they are drawn; together they cover the closed
      triangle, vertices included, and beyond it nothing but points less than a
      pixel from an edge. */
  lemma FilledTriangle(p: Point, q: Point, r: Point, t: Point)
    ensures var lines, top := TriangleLines(p, q, r), Min(p.y, Min(q.y, r.y));
      && |lines| == Max(p.y, Max(q.y, r.y)) - top + 1
      && (forall i :: 0 <= i < |lines| ==>
           && lines[i].y == top + i && lines[i].w >= 1
           && Min(p.x, Min(q.x, r.x)) <= lines[i].x
           && lines[i].x + lines[i].w - 1 <= Max(p.x, Max(q.x, r.x))
           && (!(p.y == q.y == r.y) ==> Spanned(p, q, r, lines[i])))
      && (InTriangle(p, q, r, t) || t == p || t == q || t == r ==> Covers(lines[t.y - top], t))
      && (0 <= t.y - top < |lines| && Covers(lines[t.y - top], t) ==>
            InTriangle(p, q, r, t) || NearEdge(p, q, t) || NearEdge(q, r, t) || NearEdge(p, r, t))
  {
    LinesOfTriangle(p, q, r);
    if !(p.y == q.y == r.y) {
      LinesSpanned(p, q, r);
    }
    VerticesInTriangle(p, q, r);
    if InTriangle(p, q, r, t) {
      PaintsTriangle(p, q, r, t);
    }
    if Min(p.y, Min(q.y, r.y)) <= t.y <= Max(p.y, Max(q.y, r.y)) {
      PaintsOnly(p, q, r, t);
    }
  }

  /** The line of row y, for vertices in any order. */
  function RowOf(p: Point, q: Point, r: Point, y: int): HLine
    requires Min(p.y, Min(q.y, r.y)) <= y <= Max(p.y, Max(q.y, r.y))
  {
    SortBounds(p, q, r);
    var (p0, p1, p2) := Sort3(p, q, r);
    Scanline(p0, p1, p2, y)
  }

  lemma LinesOfTriangle(p: Point, q: Point, r: Point)
    ensures var lines, top := TriangleLines(p, q, r), Min(p.y, Min(q.y, r.y));
      && |lines| == Max(p.y, Max(q.y, r.y)) - top + 1
      && forall i :: 0 <= i < |lines| ==>
           && lines[i] == RowOf(p, q, r, top + i) && lines[i].y == top + i && lines[i].w >= 1
           && Min(p.x, Min(q.x, r.x)) <= lines[i].x
           && lines[i].x + lines[i].w - 1 <= Max(p.x, Max(q.x, r.x))
  {
    var (p0, p1, p2) := Sort3(p, q, r);
    SortBounds(p, q, r);
    ScanlinesShape(p0, p1, p2, p2.y + 1);
  }

  lemma LinesSpanned(p: Point, q: Point, r: Point)
    requires !(p.y == q.y == r.y)
    ensures forall i :: 0 <= i < |TriangleLines(p, q, r)| ==> Spanned(p, q, r, TriangleLines(p, q, r)[i])
  {
    LinesOfTriangle(p, q, r);
    forall i | 0 <= i < |TriangleLines(p, q, r)|
      ensures Spanned(p, q, r, TriangleLines(p, q, r)[i])
    {
      RowSpanned(p, q, r, Min(p.y, Min(q.y, r.y)) + i);
    }
  }

  lemma PaintsTriangle(p: Point, q: Point, r: Point, t: Point)
    requires InTriangle(p, q, r, t)
    ensures Covers(RowOf(p, q, r, t.y), t)
  {
    var (p0, p1, p2) := Sort3(p, q, r);
    SortBounds(p, q, r);
    SortKeepsTriangle(p, q, r, t);
    CoversTriangle(p0, p1, p2, t);
  }

  lemma PaintsOnly(p: Point, q: Point, r: Point, t: Point)
    requires Min(p.y, Min(q.y, r.y)) <= t.y <= Max(p.y, Max(q.y, r.y))
    ensures Covers(RowOf(p, q, r, t.y), t) ==>
              InTriangle(p, q, r, t) || NearEdge(p, q, t) || NearEdge(q, r, t) || NearEdge(p, r, t)
  {
    var (p0, p1, p2) := Sort3(p, q, r);
    SortBounds(p, q, r);
    SortKeepsTriangle(p, q, r, t);
    SortKeepsEdges(p, q, r, t);
    if Covers(RowOf(p, q, r, t.y), t) {
      PaintedOnly(p0, p1, p2, t);
    }
  }

  lemma VerticesInTriangle(p: Point, q: Point, r: Point)
    ensures InTriangle(p, q, r, p) && InTriangle(p, q, r, q) && InTriangle(p, q, r, r)
  {
  }
}
