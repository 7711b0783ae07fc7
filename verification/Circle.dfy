/** Adafruit_GFX::drawCircle: the midpoint circle, whose loop the filled shapes
    share. The method returns the pixels it hands to the virtual writePixel. */
module Circle {
  import opened CInts
  import opened Line

  // ------------------------------------------------------------- meaning

  /** n squared, as a sum of odd numbers: the accumulator adds one at a time. */
  function Sq(n: nat): nat {
    if n == 0 then 0 else Sq(n - 1) + 2 * n - 1
  }

  lemma {:induction false} SqIsSquare(n: nat)
    ensures Sq(n) == n * n
  {
    if n > 0 {
      SqIsSquare(n - 1);
      assert n * n == (n - 1) * (n - 1) + 2 * n - 1;
    }
  }

  /** The disc as a set of offsets (a, b) from the centre, in absolute values:
      the distance is measured half a pixel inside, along the longer axis. */
  predicate Disc(r: nat, a: nat, b: nat) {
    Sq(a) + Sq(b) - Max(a, b) < Sq(r) || a == b == 0
  }

  /** The rim of the disc: a step outward along the longer axis leaves it. */
  predicate Ring(r: nat, a: nat, b: nat) {
    Disc(r, a, b) && Sq(r) <= Sq(a) + Sq(b) + Max(a, b)
  }

  // ------------------------------------------------- the error accumulator

  lemma {:induction false} SqMono(m: nat, n: nat)
    requires m <= n
    ensures Sq(m) <= Sq(n) && Sq(m) - m <= Sq(n) - n
    ensures m < n ==> Sq(m) + 2 * m < Sq(n)
  {
    if m < n {
      SqMono(m, n - 1);
    }
  }

  /** `y` and `f` after n turns of the loop; `x` is n. */
  datatype Arc = Arc(y: int, f: int)

  function ArcAt(r: int, n: nat): Arc {
    if n == 0 then Arc(r, 1 - r) else
    var p := ArcAt(r, n - 1);
    if p.f >= 0 then Arc(p.y - 1, p.f - 2 * (p.y - 1) + 2 * n + 1) else Arc(p.y, p.f + 2 * n + 1)
  }

  /** The loop runs an n-th time. */
  predicate Reached(r: int, n: nat) {
    n == 0 || n - 1 < ArcAt(r, n - 1).y
  }

  lemma {:induction false} ReachedBefore(r: int, n: nat)
    requires n > 0 && Reached(r, n)
    ensures Reached(r, n - 1)
    ensures r > 0
  {
    if n > 1 {
      var p := ArcAt(r, n - 2);
      ReachedBefore(r, n - 1);
    }
  }

  /** f = (x+1)^2 + y^2 - y - r^2, and y is within half a pixel of the circle. */
  lemma {:induction false} ArcInvariant(r: nat, n: nat)
    requires Reached(r, n)
    ensures var Arc(y, f) := ArcAt(r, n);
      && 0 <= y <= r && n <= y + 1
      && f == Sq(n + 1) + Sq(y) - y - Sq(r)
      && -y <= Sq(n) + Sq(y) - Sq(r)
      && (r > 0 && n <= y ==> Sq(n) + Sq(y) - Sq(r) < y)
      && (n == y + 1 ==> ArcAt(r, n - 1).y == n)
  {
    if n > 0 {
      ArcInvariant(r, n - 1);
    }
  }

  lemma {:induction false} ReachedTo(r: nat, m: nat, n: nat)
    requires Reached(r, n) && m <= n
    ensures Reached(r, m)
    ensures m < n ==> m < ArcAt(r, m).y
  {
    if m < n {
      ReachedBefore(r, n);
      ReachedTo(r, m, n - 1);
    }
  }

  /** Every point the loop visits is on the rim. */
  lemma VisitedOnRing(r: nat, n: nat)
    requires Reached(r, n)
    ensures ArcAt(r, n).y >= 0
    ensures Ring(r, n, ArcAt(r, n).y) && Ring(r, ArcAt(r, n).y, n)
  {
    var y := ArcAt(r, n).y;
    ArcInvariant(r, n);
    if n <= y {
      UpperRing(r, n);
    } else {
      OvershotRing(r, n);
    }
    RingSymmetric(r, n, y);
  }

  lemma UpperRing(r: nat, n: nat)
    requires Reached(r, n) && n <= ArcAt(r, n).y
    ensures Ring(r, n, ArcAt(r, n).y)
  {
    ArcInvariant(r, n);
    if n > 0 {
      ReachedBefore(r, n);
    }
  }

  /** The exit turn, where x passes y by one. */
  lemma OvershotRing(r: nat, n: nat)
    requires Reached(r, n) && n == ArcAt(r, n).y + 1
    ensures Ring(r, n, n - 1)
  {
    ArcInvariant(r, n);
    ReachedBefore(r, n);
    ArcInvariant(r, n - 1);
  }

  lemma RingSymmetric(r: nat, a: nat, b: nat)
    ensures Ring(r, a, b) == Ring(r, b, a)
  {
  }

  /** A column (or row) nearer the axis than the diagonal has one rim point. */
  lemma RimUnique(r: nat, a: nat, b: nat, c: nat)
    requires Ring(r, a, b) && Ring(r, a, c) && a <= b <= c
    ensures b == c
  {
    if b < c {
      SqMono(b + 1, c);
    }
  }

  /** The loop stops only when no rim point is left. */
  lemma RimBound(r: nat, n: nat, y: nat, a: nat, b: nat)
    requires y <= n <= y + 1 && Sq(r) <= Sq(n) + Sq(y) + y
    requires Disc(r, a, b) && a <= b
    ensures a <= y
  {
    if y < a {
      SqMono(y + 1, a);
      SqMono(a, b);
      SqMono(n, y + 1);
      SqMono(y, y + 1);
    }
  }

  /** Every point of the rim is visited, up to reflection in the diagonal. */
  lemma RingVisited(r: nat, n: nat, a: nat, b: nat)
    requires Reached(r, n) && ArcAt(r, n).y <= n
    requires Ring(r, a, b) && a <= b
    ensures a <= n && ArcAt(r, a).y == b
  {
    var y := ArcAt(r, n).y;
    ArcInvariant(r, n);
    RimBound(r, n, y, a, b);
    ReachedTo(r, a, n);
    VisitedOnRing(r, a);
    var v := ArcAt(r, a).y;
    RimUnique(r, a, Min(b, v), Max(b, v));
  }

  lemma StepsBelow(r: nat, n: nat)
    requires Reached(r, n)
    ensures (0 < n ==> n <= r) && (2 < r ==> n < r)
  {
    if 0 < n {
      ReachedBefore(r, n);
      ArcInvariant(r, n - 1);
      if 2 < n {
        SqMono(2, n - 1);
      }
    }
  }

  /** The accumulators fit 16 bits at every turn the loop makes. */
  lemma AccumulatorRange(r: nat, n: nat)
    requires Reached(r, n)
    ensures var Arc(y, f) := ArcAt(r, n);
      0 <= y <= r && n <= y + 1 && (2 < r ==> n < r) && (0 < n ==> n <= r) && 1 - 2 * r <= f <= 2 * n + 1
  {
    StepsBelow(r, n);
    VisitedOnRing(r, n);
    ArcInvariant(r, n);
    ErrorRange(r, n, ArcAt(r, n).y, ArcAt(r, n).f, Sq(n) + Sq(ArcAt(r, n).y) - Sq(r));
  }

  /** The accumulator f, for a point that is d off the circle. */
  lemma ErrorRange(r: nat, n: nat, y: int, f: int, d: int)
    requires 0 <= y <= r && n <= y + 1 && f == d + 2 * n + 1 - y
    requires -y <= d && (d < Max(n, y) || (n == 0 && y == 0 && d <= 0))
    ensures 1 - 2 * r <= f <= 2 * n + 1
  {
  }

  lemma NextTurn(r: nat, x: nat, y: int, f: int)
    requires x < y && Reached(r, x) && ArcAt(r, x) == Arc(y, f)
    ensures var y', f' := if f >= 0 then y - 1 else y, (if f >= 0 then f - 2 * (y - 1) else f) + 2 * x + 3;
      && Reached(r, x + 1) && ArcAt(r, x + 1) == Arc(y', f')
      && y <= r && x + 1 <= r && (2 < r ==> x + 1 < r) && -2 * r < f <= 2 * x + 1 && -2 * r < f' <= 2 * x + 3
  {
    AccumulatorRange(r, x);
    AccumulatorRange(r, x + 1);
  }

  /** The lines at the head of all three midpoint loops. None of the 16-bit
      accumulators wraps: -2r fits, and that is enough for every turn. */
  method Turn(ghost r: nat, x: int16, y: int16, f: int16, ddF_x: int16, ddF_y: int16)
      returns (x': int16, y': int16, f': int16, ddF_x': int16, ddF_y': int16)
    requires r <= 16384 && 0 <= x < y && Reached(r, x)
    requires ArcAt(r, x) == Arc(y, f) && ddF_x == 2 * x + 1 && ddF_y == -2 * y
    ensures x' == x + 1 && Reached(r, x') && ArcAt(r, x') == Arc(y', f')
    ensures ddF_x' == 2 * x' + 1 && ddF_y' == -2 * y'
    ensures 0 < x' <= r && y - 1 <= y' <= y <= r
  {
    x', y', f', ddF_x', ddF_y' := x, y, f, ddF_x, ddF_y;
    NextTurn(r, x, y, f);
    if f' >= 0 {
      y' := y' - 1;
      ddF_y' := ddF_y' + 2;
      f' := f' + ddF_y';
    }
    x' := x' + 1;
    ddF_x' := ddF_x' + 2;
    f' := f' + ddF_x';
  }

  // ------------------------------------------------------------- drawCircle

  function Eight(x0: int, y0: int, x: int, y: int): (ps: seq<Point>) {
    [Point(x0 + x, y0 + y), Point(x0 - x, y0 + y), Point(x0 + x, y0 - y), Point(x0 - x, y0 - y),
     Point(x0 + y, y0 + x), Point(x0 - y, y0 + x), Point(x0 + y, y0 - x), Point(x0 - y, y0 - x)]
  }

  lemma EightWay(x0: int, y0: int, x: nat, y: nat, p: Point)
    ensures p in Eight(x0, y0, x, y) <==>
            (Abs(p.x - x0) == x && Abs(p.y - y0) == y) || (Abs(p.x - x0) == y && Abs(p.y - y0) == x)
  {
    var e := Eight(x0, y0, x, y);
    if Abs(p.x - x0) == x && Abs(p.y - y0) == y {
      var k := (if p.x < x0 then 1 else 0) + (if p.y < y0 then 2 else 0);
      assert e[k] == p;
    } else if Abs(p.x - x0) == y && Abs(p.y - y0) == x {
      var k := (if p.x < x0 then 5 else 4) + (if p.y < y0 then 2 else 0);
      assert e[k] == p;
    }
  }

  /** One of the points plotted before or during turn n, up to reflection. */
  predicate OnArc(r: nat, n: nat, a: nat, b: nat) {
    var y := ArcAt(r, n).y;
    (a == n && b == y) || (a == y && b == n) || (n > 0 && OnArc(r, n - 1, a, b))
  }

  lemma {:induction false} OnArcVisit(r: nat, n: nat, m: nat)
    requires m <= n
    ensures ArcAt(r, m).y >= 0 ==> OnArc(r, n, m, ArcAt(r, m).y) && OnArc(r, n, ArcAt(r, m).y, m)
  {
    if m < n {
      OnArcVisit(r, n - 1, m);
    }
  }

  lemma {:induction false} OnArcOnRing(r: nat, n: nat, a: nat, b: nat)
    requires Reached(r, n) && OnArc(r, n, a, b)
    ensures Ring(r, a, b)
  {
    VisitedOnRing(r, n);
    if n > 0 && OnArc(r, n - 1, a, b) {
      ReachedBefore(r, n);
      OnArcOnRing(r, n - 1, a, b);
    }
  }

  lemma ArcIsRing(r: nat, n: nat, a: nat, b: nat)
    requires Reached(r, n) && ArcAt(r, n).y <= n
    ensures OnArc(r, n, a, b) <==> Ring(r, a, b)
  {
    if OnArc(r, n, a, b) {
      OnArcOnRing(r, n, a, b);
    } else if Ring(r, a, b) {
      RingVisited(r, n, Min(a, b), Max(a, b));
      OnArcVisit(r, n, Min(a, b));
    }
  }

  /** The pixels plotted after n turns. */
  ghost predicate Plotted(x0: int, y0: int, r: nat, n: nat, pixels: seq<Point>) {
    forall p :: p in pixels <==> OnArc(r, n, Abs(p.x - x0), Abs(p.y - y0))
  }

  lemma PlotTurn(x0: int, y0: int, r: nat, n: nat, pixels: seq<Point>)
    requires Plotted(x0, y0, r, n, pixels)
    ensures 0 <= ArcAt(r, n + 1).y ==>
              Plotted(x0, y0, r, n + 1, pixels + Eight(x0, y0, n + 1, ArcAt(r, n + 1).y))
  {
    var y := ArcAt(r, n + 1).y;
    if 0 <= y {
      forall p
        ensures p in pixels + Eight(x0, y0, n + 1, y) <==> OnArc(r, n + 1, Abs(p.x - x0), Abs(p.y - y0))
      {
        EightWay(x0, y0, n + 1, y, p);
      }
    }
  }

  lemma PlottedIsRing(x0: int, y0: int, r: nat, n: nat, pixels: seq<Point>)
    requires Plotted(x0, y0, r, n, pixels) && Reached(r, n) && ArcAt(r, n).y <= n
    ensures forall p :: p in pixels <==> Ring(r, Abs(p.x - x0), Abs(p.y - y0))
  {
    forall p
      ensures p in pixels <==> Ring(r, Abs(p.x - x0), Abs(p.y - y0))
    {
      ArcIsRing(r, n, Abs(p.x - x0), Abs(p.y - y0));
    }
  }

  lemma Cardinals(x0: int, y0: int, r: nat, pixels: seq<Point>)
    requires pixels == [Point(x0, y0 + r), Point(x0, y0 - r), Point(x0 + r, y0), Point(x0 - r, y0)]
    ensures Plotted(x0, y0, r, 0, pixels)
  {
    assert pixels[0] in pixels && pixels[1] in pixels && pixels[2] in pixels && pixels[3] in pixels;
  }

  /** The pixels of a circle are exactly the rim of its disc. */
  method DrawCircle(x0: int16, y0: int16, r: int16) returns (pixels: seq<Point>)
    requires 0 <= r <= 16384
    requires -0x8000 <= x0 - r && x0 + r < 0x8000 && -0x8000 <= y0 - r && y0 + r < 0x8000
    ensures forall p :: p in pixels <==> Ring(r, Abs(p.x - x0), Abs(p.y - y0))
  {
    var f: int16 := 1 - r;
    var ddF_x: int16 := 1;
    var ddF_y: int16 := -2 * r;
    var x: int16 := 0;
    var y: int16 := r;
    pixels := [Point(x0, y0 + r), Point(x0, y0 - r), Point(x0 + r, y0), Point(x0 - r, y0)];
    Cardinals(x0, y0, r, pixels);
    while x < y
      invariant 0 <= x && Reached(r, x)
      invariant ArcAt(r, x) == Arc(y, f)
      invariant ddF_x == 2 * x + 1 && ddF_y == -2 * y
      invariant Plotted(x0, y0, r, x, pixels)
    {
      PlotTurn(x0, y0, r, x, pixels);
      x, y, f, ddF_x, ddF_y := Turn(r, x, y, f, ddF_x, ddF_y);
      pixels := pixels + Eight(x0, y0, x, y);
    }
    PlottedIsRing(x0, y0, r, x, pixels);
  }
}
