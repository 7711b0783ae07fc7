/** Adafruit_GFX::writeLine and drawLine. Writing a pixel is the only effect
    the base class has, so a method returns the pixels it writes, in order. */
module Line {
  import opened CInts

  datatype Point = Point(x: int, y: int)

  /** The line in its major direction: `at` runs from `from` for `dx` further
      steps while the minor coordinate moves `dy` in all, in steps of `ystep`. */
  datatype Course = Course(steep: bool, from: int, minor: int, dx: nat, dy: nat, rising: bool)

  function CourseOf(p: Point, q: Point): (c: Course)
    ensures c.dy <= c.dx == Max(Abs(q.x - p.x), Abs(q.y - p.y))
  {
    var steep := Abs(q.y - p.y) > Abs(q.x - p.x);
    var a, b := if steep then Point(p.y, p.x) else p, if steep then Point(q.y, q.x) else q;
    var s, e := if a.x > b.x then b else a, if a.x > b.x then a else b;
    Course(steep, s.x, s.y, e.x - s.x, Abs(e.y - s.y), s.y < e.y)
  }

  /** The whole number nearest to i * dy / dx, a tie going down. */
  function MinorSteps(c: Course, i: nat): nat {
    if c.dx == 0 then 0 else (i * c.dy + (c.dx - 1) / 2) / c.dx
  }

  function PointAt(c: Course, i: nat): Point {
    var k := MinorSteps(c, i);
    var u, v := c.from + i, if c.rising then c.minor + k else c.minor - k;
    if c.steep then Point(v, u) else Point(u, v)
  }

  /** The pixels of a line, without an error accumulator. */
  function LinePixels(p: Point, q: Point): seq<Point> {
    var c := CourseOf(p, q);
    seq(c.dx + 1, i requires 0 <= i => PointAt(c, i))
  }

  datatype Acc = Acc(k: nat, err: int)

  /** Bresenham's accumulator after i pixels: the minor steps taken and `err`. */
  function Walk(c: Course, i: nat): Acc {
    if i == 0 then Acc(0, c.dx / 2) else
    var w := Walk(c, i - 1);
    if w.err < c.dy then Acc(w.k + 1, w.err - c.dy + c.dx) else Acc(w.k, w.err - c.dy)
  }

  lemma {:induction false} WalkError(c: Course, i: nat)
    requires c.dy <= c.dx
    ensures var Acc(k, err) := Walk(c, i);
      && (if c.dx == 0 then err == k == 0 else 0 <= err < c.dx)
      && err == c.dx / 2 - Times(i, c.dy) + Times(k, c.dx)
  {
    if i > 0 {
      WalkError(c, i - 1);
    }
  }

  /** The accumulator stays in 0..dx-1, and so the steps taken are the nearest
      whole number to the ideal line. */
  lemma WalkMeaning(c: Course, i: nat)
    requires c.dy <= c.dx
    ensures Walk(c, i).k == MinorSteps(c, i)
    ensures c.dx > 0 ==> -(c.dx / 2) <= MinorSteps(c, i) * c.dx - i * c.dy <= (c.dx - 1) / 2
  {
    var Acc(k, err) := Walk(c, i);
    WalkError(c, i);
    if c.dx > 0 {
      TimesIsProduct(i, c.dy);
      TimesIsProduct(k, c.dx);
      DivUnique(i * c.dy + (c.dx - 1) / 2, c.dx, k);
    }
  }

  lemma {:induction false} StepsOrdered(c: Course, i: nat, j: nat)
    requires c.dy <= c.dx && i <= j
    ensures Walk(c, i).k <= Walk(c, j).k <= Walk(c, i).k + (j - i)
  {
    if i < j {
      StepsOrdered(c, i, j - 1);
    }
  }

  lemma LastStep(c: Course)
    requires c.dy <= c.dx
    ensures Walk(c, c.dx).k == c.dy
  {
    WalkMeaning(c, c.dx);
    if c.dx > 0 {
      DivUnique(c.dx * c.dy + (c.dx - 1) / 2, c.dx, c.dy);
    }
  }

  function WalkPoint(c: Course, i: nat): Point {
    var u, k := c.from + i, Walk(c, i).k;
    var v := if c.rising then c.minor + k else c.minor - k;
    if c.steep then Point(v, u) else Point(u, v)
  }

  function WalkPixels(c: Course, n: nat): seq<Point> {
    if n == 0 then [] else WalkPixels(c, n - 1) + [WalkPoint(c, n - 1)]
  }

  lemma {:induction false} WalkIsLine(c: Course, n: nat)
    requires c.dy <= c.dx
    ensures |WalkPixels(c, n)| == n
    ensures forall i :: 0 <= i < n ==> WalkPixels(c, n)[i] == PointAt(c, i)
  {
    if n > 0 {
      WalkIsLine(c, n - 1);
      WalkMeaning(c, n - 1);
    }
  }

  /** One turn of the loop, and the ranges its variables are in. */
  lemma WalkStep(c: Course, i: nat, k: nat, err: int)
    requires c.dy <= c.dx && i <= c.dx && Walk(c, i) == Acc(k, err)
    ensures k <= c.dy && 0 <= err && err <= c.dx
    ensures Walk(c, i + 1) == if err < c.dy then Acc(k + 1, err - c.dy + c.dx) else Acc(k, err - c.dy)
    ensures WalkPixels(c, i + 1) == WalkPixels(c, i) + [WalkPoint(c, i)]
    ensures WalkPoint(c, i) ==
            var u, v := c.from + i, if c.rising then c.minor + k else c.minor - k;
            if c.steep then Point(v, u) else Point(u, v)
  {
    WalkError(c, i);
    StepsOrdered(c, i, c.dx);
    LastStep(c);
  }

  predicate Inside(a: int) {
    -0x8000 < a < 0x7FFF
  }

  method WriteLine(px: int16, py: int16, qx: int16, qy: int16) returns (pixels: seq<Point>)
    requires Inside(px) && Inside(py) && Inside(qx) && Inside(qy)
    requires Abs(qx - px) < 0x8000 && Abs(qy - py) < 0x8000
    ensures pixels == LinePixels(Point(px, py), Point(qx, qy))
  {
    var x0, y0, x1, y1 := px, py, qx, qy;
    var steep := Abs(y1 - y0) > Abs(x1 - x0);
    if steep {
      x0, y0 := y0, x0;
      x1, y1 := y1, x1;
    }
    if x0 > x1 {
      x0, x1 := x1, x0;
      y0, y1 := y1, y0;
    }
    pixels := WriteCourse(steep, x0, y0, x1, y1);
    ghost var c := CourseOf(Point(px, py), Point(qx, qy));
    assert c == Course(steep, x0, y0, x1 - x0, Abs(y1 - y0), y0 < y1);
    WalkIsLine(c, c.dx + 1);
    assert pixels == LinePixels(Point(px, py), Point(qx, qy));
  }

  /** The loop of writeLine, once the coordinates are swapped into place. */
  method WriteCourse(steep: bool, x: int16, y: int16, x1: int16, y1: int16) returns (pixels: seq<Point>)
    requires Inside(x) && Inside(y) && Inside(x1) && Inside(y1)
    requires Abs(y1 - y) <= x1 - x < 0x8000
    ensures pixels == WalkPixels(Course(steep, x, y, x1 - x, Abs(y1 - y), y < y1), x1 - x + 1)
  {
    var x0, y0 := x, y;
    var dx: int16 := x1 - x0;
    var dy: int16 := Abs(y1 - y0);
    var err: int16 := dx / 2;
    var ystep: int16 := if y0 < y1 then 1 else -1;

    ghost var c := Course(steep, x, y, dx, dy, y < y1);
    ghost var i, k := 0, 0;
    pixels := [];
    while x0 <= x1
      invariant i == x0 - x <= dx + 1
      invariant Walk(c, i) == Acc(k, err)
      invariant y0 == if y < y1 then y + k else y - k
      invariant pixels == WalkPixels(c, i)
    {
      WalkStep(c, i, k, err);
      pixels := pixels + [if steep then Point(y0, x0) else Point(x0, y0)];
      err := err - dy;
      if err < 0 {
        y0 := y0 + ystep;
        err := err + dx;
        k := k + 1;
      }
      x0 := x0 + 1;
      i := i + 1;
    }
  }

  method DrawLine(px: int16, py: int16, qx: int16, qy: int16) returns (pixels: seq<Point>)
    requires Inside(px) && Inside(py) && Inside(qx) && Inside(qy)
    requires Abs(qx - px) < 0x7FFF && Abs(qy - py) < 0x7FFF
    ensures pixels == LinePixels(Point(px, py), Point(qx, qy))
  {
    var x0, y0, x1, y1 := px, py, qx, qy;
    if x0 == x1 {
      if y0 > y1 {
        y0, y1 := y1, y0;
      }
      pixels := DrawFastVLine(x0, y0, y1 - y0 + 1);
    } else if y0 == y1 {
      if x0 > x1 {
        x0, x1 := x1, x0;
      }
      pixels := DrawFastHLine(x0, y0, x1 - x0 + 1);
    } else {
      pixels := WriteLine(x0, y0, x1, y1);
    }
    LineReversed(Point(px, py), Point(qx, qy));
  }

  method DrawFastVLine(x: int16, y: int16, h: int16) returns (pixels: seq<Point>)
    requires Inside(x) && Inside(y) && Inside(y + h - 1) && Abs(h - 1) < 0x8000
    ensures pixels == LinePixels(Point(x, y), Point(x, y + h - 1))
  {
    pixels := WriteLine(x, y, x, y + h - 1);
  }

  method DrawFastHLine(x: int16, y: int16, w: int16) returns (pixels: seq<Point>)
    requires Inside(x) && Inside(y) && Inside(x + w - 1) && Abs(w - 1) < 0x8000
    ensures pixels == LinePixels(Point(x, y), Point(x + w - 1, y))
  {
    pixels := WriteLine(x, y, x + w - 1, y);
  }

  // ---------------------------------------------------------------- meaning

  /** Exchanging the endpoints writes the same pixels in the same order. */
  lemma LineReversed(p: Point, q: Point)
    ensures LinePixels(p, q) == LinePixels(q, p)
  {
    assert CourseOf(p, q).dx > 0 ==> CourseOf(p, q) == CourseOf(q, p);
  }

  lemma LineShape(p: Point, q: Point)
    ensures var line := LinePixels(p, q);
      && |line| == Max(Abs(q.x - p.x), Abs(q.y - p.y)) + 1
      && ((line[0] == p && line[|line| - 1] == q) || (line[0] == q && line[|line| - 1] == p))
      && (forall i :: 0 <= i < |line| - 1 ==>
            Max(Abs(line[i + 1].x - line[i].x), Abs(line[i + 1].y - line[i].y)) == 1)
      && (forall i, j :: 0 <= i < j < |line| ==> line[i] != line[j])
  {
    var line := LinePixels(p, q);
    LineEnds(p, q);
    forall i | 0 <= i < |line| - 1
      ensures Max(Abs(line[i + 1].x - line[i].x), Abs(line[i + 1].y - line[i].y)) == 1
    {
      Neighbours(CourseOf(p, q), i);
    }
    forall i, j | 0 <= i < j < |line|
      ensures line[i] != line[j]
    {
      Distinct(CourseOf(p, q), i, j);
    }
  }

  lemma LineEnds(p: Point, q: Point)
    ensures var c := CourseOf(p, q);
      (PointAt(c, 0) == p && PointAt(c, c.dx) == q) || (PointAt(c, 0) == q && PointAt(c, c.dx) == p)
  {
    var c := CourseOf(p, q);
    LastStep(c);
    WalkMeaning(c, 0);
    WalkMeaning(c, c.dx);
  }

  /** It runs from the left, or from the top when it is higher than it is wide. */
  lemma LineStarts(p: Point, q: Point)
    ensures LinePixels(p, q)[0] ==
            if Abs(q.y - p.y) > Abs(q.x - p.x) then (if p.y <= q.y then p else q) else if p.x <= q.x then p else q
  {
    WalkMeaning(CourseOf(p, q), 0);
  }

  lemma Neighbours(c: Course, i: nat)
    requires c.dy <= c.dx && i < c.dx
    ensures var a, b := PointAt(c, i), PointAt(c, i + 1); Max(Abs(b.x - a.x), Abs(b.y - a.y)) == 1
  {
    WalkMeaning(c, i);
    WalkMeaning(c, i + 1);
    StepsOrdered(c, i, i + 1);
  }

  /** Different steps are different columns, or rows when the line is steep. */
  lemma Distinct(c: Course, i: nat, j: nat)
    requires i < j
    ensures PointAt(c, i) != PointAt(c, j)
  {
  }

  /** Twice the signed area of p, q and r: how far r is from the line pq. */
  function Cross(p: Point, q: Point, r: Point): int {
    (q.x - p.x) * (r.y - p.y) - (q.y - p.y) * (r.x - p.x)
  }

  lemma CrossSymmetric(p: Point, q: Point, r: Point)
    ensures Cross(q, p, r) == -Cross(p, q, r)
    ensures Cross(Point(p.y, p.x), Point(q.y, q.x), Point(r.y, r.x)) == -Cross(p, q, r)
  {
  }

  lemma CrossAlong(s: Point, dx: int, dy: int, i: int, k: int, sign: int)
    requires sign == 1 || sign == -1
    ensures Abs(Cross(s, Point(s.x + dx, s.y + sign * dy), Point(s.x + i, s.y + sign * k))) == Abs(k * dx - i * dy)
  {
    assert dx * (sign * k) - sign * dy * i == sign * (k * dx - i * dy);
  }

  /** The distance from the ideal line, in terms of the course. */
  lemma CourseDistance(p: Point, q: Point, i: nat, k: int, r: Point)
    requires var c := CourseOf(p, q);
      var u, v := c.from + i, if c.rising then c.minor + k else c.minor - k;
      r == if c.steep then Point(v, u) else Point(u, v)
    ensures var c := CourseOf(p, q); Abs(Cross(p, q, r)) == Abs(k * c.dx - i * c.dy)
  {
    var c := CourseOf(p, q);
    var a, b, d := if c.steep then Point(p.y, p.x) else p, if c.steep then Point(q.y, q.x) else q,
                   if c.steep then Point(r.y, r.x) else r;
    CrossSymmetric(p, q, r);
    CrossSymmetric(a, b, d);
    CrossAlong(Point(c.from, c.minor), c.dx, c.dy, i, k, if c.rising then 1 else -1);
  }

  /** Every pixel is as near to the ideal line as its column (row, when steep)
      allows, measured along the minor axis: half a pixel at most. */
  lemma LineNearest(p: Point, q: Point, i: nat)
    requires i < |LinePixels(p, q)|
    ensures 2 * Abs(Cross(p, q, LinePixels(p, q)[i])) <= Max(Abs(q.x - p.x), Abs(q.y - p.y))
  {
    var c := CourseOf(p, q);
    WalkMeaning(c, i);
    CourseDistance(p, q, i, MinorSteps(c, i), LinePixels(p, q)[i]);
    if c.dx == 0 {
      assert MinorSteps(c, i) * c.dx == 0 && i * c.dy == 0;
    }
  }

  /** Nothing nearer is left out: a point of the major range strictly within
      half a pixel of the ideal line is one of the pixels written. */
  lemma LineComplete(p: Point, q: Point, r: Point)
    requires p != q
    requires if CourseOf(p, q).steep then Min(p.y, q.y) <= r.y <= Max(p.y, q.y)
             else Min(p.x, q.x) <= r.x <= Max(p.x, q.x)
    requires 2 * Abs(Cross(p, q, r)) < Max(Abs(q.x - p.x), Abs(q.y - p.y))
    ensures r in LinePixels(p, q)
  {
    var c := CourseOf(p, q);
    var i := (if c.steep then r.y else r.x) - c.from;
    var v := if c.steep then r.x else r.y;
    var k := if c.rising then v - c.minor else c.minor - v;
    CourseDistance(p, q, i, k, r);
    DivUnique(i * c.dy + (c.dx - 1) / 2, c.dx, k);
    assert k == MinorSteps(c, i);
    assert LinePixels(p, q)[i] == r;
  }
}
