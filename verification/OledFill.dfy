/** Filled shapes on the OLED: the vertical lines of Adafruit_GFX, carried out by
    the fast lines of Adafruit_SSD1306. */
module OledFill {
  import opened CInts
  import opened Line
  import opened Circle
  import FilledCircle
  import opened Bytes
  import opened Raster
  import Ssd1306

  /** The lines drawn one after the other, pixel by pixel. */
  function DrawLines(f: Frame, buf: seq<bv8>, lines: seq<FilledCircle.VLine>, color: int): (buf': seq<bv8>)
    requires |buf| == Size(f) && Valid(f)
    ensures |buf'| == Size(f)
  {
    if lines == [] then buf else
    var l := lines[|lines| - 1];
    DrawRun(f, DrawLines(f, buf, lines[..|lines| - 1], color), l.x, l.y, l.h, false, color)
  }

  /** A pixel drawn n times. */
  predicate PaintTimes(color: int, lit: bool, n: nat) {
    if n == 0 then lit else Paint(color, PaintTimes(color, lit, n - 1))
  }

  /** Each pixel of the buffer is drawn as often as the lines touch its place on
      the screen; padding is never drawn. */
  lemma {:induction false} DrawnPixel(f: Frame, buf: seq<bv8>, lines: seq<FilledCircle.VLine>, color: int, u: int, v: int)
    requires |buf| == Size(f) && Valid(f) && 0 <= color <= 2 && InPad(f, u, v)
    ensures var (x, y) := Unrotate(f, u, v);
      Lit(f, DrawLines(f, buf, lines, color), u, v) ==
      if u < f.W && v < f.H then PaintTimes(color, Lit(f, buf, u, v), FilledCircle.Touches(lines, Point(x, y)))
      else Lit(f, buf, u, v)
  {
    if lines != [] {
      var n := |lines| - 1;
      var l, mid := lines[n], DrawLines(f, buf, lines[..n], color);
      DrawnPixel(f, buf, lines[..n], color, u, v);
      DrawRunPaints(f, mid, l.x, l.y, l.h, false, color);
      InOnBuffer(f, Run(l.x, l.y, l.h, false), u, v);
    }
  }

  /** Drawing a set of lines inverse twice restores the picture. */
  lemma InverseTwice(f: Frame, buf: seq<bv8>, lines: seq<FilledCircle.VLine>)
    requires |buf| == Size(f) && Valid(f)
    ensures DrawLines(f, DrawLines(f, buf, lines, INVERSE), lines, INVERSE) == buf
  {
    var once := DrawLines(f, buf, lines, INVERSE);
    var twice := DrawLines(f, once, lines, INVERSE);
    forall u, v | InPad(f, u, v)
      ensures Lit(f, twice, u, v) == Lit(f, buf, u, v)
    {
      DrawnPixel(f, buf, lines, INVERSE, u, v);
      DrawnPixel(f, once, lines, INVERSE, u, v);
      var (x, y) := Unrotate(f, u, v);
      InverseParity(Lit(f, buf, u, v), FilledCircle.Touches(lines, Point(x, y)));
      InverseParity(Lit(f, once, u, v), FilledCircle.Touches(lines, Point(x, y)));
    }
    SamePicture(f, twice, buf);
  }

  lemma {:induction false} InverseParity(lit: bool, n: nat)
    ensures PaintTimes(INVERSE, lit, n) == (lit != (n % 2 == 1))
  {
    if n > 0 {
      InverseParity(lit, n - 1);
    }
  }

  lemma SamePicture(f: Frame, p: seq<bv8>, q: seq<bv8>)
    requires |p| == |q| == Size(f)
    requires forall u, v :: InPad(f, u, v) ==> Lit(f, p, u, v) == Lit(f, q, u, v)
    ensures p == q
  {
    var none := Rect(0, 0, 0, 0);
    PaintedUnique(f, p, p, q, none, none, WHITE);
  }

  /** A pixel drawn over the cleared display, */
  lemma OverBlack(f: Frame, buf: seq<bv8>, lines: seq<FilledCircle.VLine>, x: int, y: int, color: int)
    requires |buf| == Size(f) && Valid(f) && OnScreen(f, x, y) && 0 <= color <= 2
    requires forall i :: 0 <= i < |buf| ==> buf[i] == 0
    ensures var (u, v) := Rotate(f, x, y);
      && InPad(f, u, v)
      && Lit(f, DrawLines(f, buf, lines, color), u, v) ==
         PaintTimes(color, false, FilledCircle.Touches(lines, Point(x, y)))
  {
    var (u, v) := Rotate(f, x, y);
    PixelOnBuffer(f, x, y);
    assert Unrotate(f, u, v) == (x, y);
    DrawnPixel(f, buf, lines, color, u, v);
    BlackPixel(f, buf, u, v);
  }

  lemma BlackPixel(f: Frame, buf: seq<bv8>, u: int, v: int)
    requires |buf| == Size(f) && InPad(f, u, v)
    requires forall i :: 0 <= i < |buf| ==> buf[i] == 0
    ensures !Lit(f, buf, u, v)
  {
    ByteInside(f, u, v);
    assert buf[ByteOf(f, u, v)] == 0;
  }

  lemma WhiteOnce(n: nat)
    ensures PaintTimes(WHITE, false, n) == (n > 0)
  {
  }

  /** in white and inverse. */
  lemma FromBlack(f: Frame, buf: seq<bv8>, lines: seq<FilledCircle.VLine>, x: int, y: int)
    requires |buf| == Size(f) && Valid(f) && OnScreen(f, x, y)
    requires forall i :: 0 <= i < |buf| ==> buf[i] == 0
    ensures var (u, v) := Rotate(f, x, y);
      var n := FilledCircle.Touches(lines, Point(x, y));
      && InPad(f, u, v)
      && Lit(f, DrawLines(f, buf, lines, WHITE), u, v) == (n > 0)
      && Lit(f, DrawLines(f, buf, lines, INVERSE), u, v) == (n % 2 == 1)
  {
    var n := FilledCircle.Touches(lines, Point(x, y));
    OverBlack(f, buf, lines, x, y, WHITE);
    OverBlack(f, buf, lines, x, y, INVERSE);
    WhiteOnce(n);
    InverseParity(false, n);
  }

  /** Outside the screen, and in the padding, nothing is drawn. */
  lemma OffBuffer(f: Frame, buf: seq<bv8>, lines: seq<FilledCircle.VLine>, u: int, v: int)
    requires |buf| == Size(f) && Valid(f) && InPad(f, u, v) && !(u < f.W && v < f.H)
    ensures Lit(f, DrawLines(f, buf, lines, WHITE), u, v) == Lit(f, DrawLines(f, buf, lines, INVERSE), u, v)
  {
    DrawnPixel(f, buf, lines, WHITE, u, v);
    DrawnPixel(f, buf, lines, INVERSE, u, v);
  }

  /** On a cleared display an inverse fill is a white fill exactly when every
      pixel on the screen is touched an odd number of times or not at all. */
  lemma InverseIsWhite(f: Frame, buf: seq<bv8>, lines: seq<FilledCircle.VLine>)
    requires |buf| == Size(f) && Valid(f)
    requires forall i :: 0 <= i < |buf| ==> buf[i] == 0
    ensures DrawLines(f, buf, lines, INVERSE) == DrawLines(f, buf, lines, WHITE) <==>
            forall x, y :: OnScreen(f, x, y) ==>
              var n := FilledCircle.Touches(lines, Point(x, y)); n == 0 || n % 2 == 1
  {
    forall x, y | OnScreen(f, x, y)
      ensures DrawLines(f, buf, lines, INVERSE) == DrawLines(f, buf, lines, WHITE) ==>
              var n := FilledCircle.Touches(lines, Point(x, y)); n == 0 || n % 2 == 1
    {
      FromBlack(f, buf, lines, x, y);
    }
    if forall x, y :: OnScreen(f, x, y) ==>
         var n := FilledCircle.Touches(lines, Point(x, y)); n == 0 || n % 2 == 1 {
      forall u, v | InPad(f, u, v)
        ensures Lit(f, DrawLines(f, buf, lines, INVERSE), u, v) == Lit(f, DrawLines(f, buf, lines, WHITE), u, v)
      {
        OddIsWhite(f, buf, lines, u, v);
      }
      SamePicture(f, DrawLines(f, buf, lines, INVERSE), DrawLines(f, buf, lines, WHITE));
    }
  }

  lemma OddIsWhite(f: Frame, buf: seq<bv8>, lines: seq<FilledCircle.VLine>, u: int, v: int)
    requires |buf| == Size(f) && Valid(f) && InPad(f, u, v)
    requires forall i :: 0 <= i < |buf| ==> buf[i] == 0
    requires var (x, y) := Unrotate(f, u, v);
      OnScreen(f, x, y) ==> var n := FilledCircle.Touches(lines, Point(x, y)); n == 0 || n % 2 == 1
    ensures Lit(f, DrawLines(f, buf, lines, INVERSE), u, v) == Lit(f, DrawLines(f, buf, lines, WHITE), u, v)
  {
    if u < f.W && v < f.H {
      var (x, y) := Unrotate(f, u, v);
      assert Rotate(f, x, y) == (u, v);
      FromBlack(f, buf, lines, x, y);
    } else {
      OffBuffer(f, buf, lines, u, v);
    }
  }

  // ---------------------------------------------------------- on the display

  predicate TameLine(l: FilledCircle.VLine) {
    Ssd1306.Tame(l.x) && Ssd1306.Tame(l.y) && Ssd1306.Tame(l.h) && Ssd1306.Tame(l.y + l.h)
  }

  method DrawAll(d: Ssd1306.Ssd1306, lines: seq<FilledCircle.VLine>, color: uint16)
    requires d.Ready() && color <= 2
    requires forall l :: l in lines ==> TameLine(l)
    modifies d.buffer
    ensures d.buffer[..] == DrawLines(d.Shape(), old(d.buffer[..]), lines, color)
  {
    ghost var start := d.buffer[..];
    for i := 0 to |lines|
      invariant d.buffer[..] == DrawLines(d.Shape(), start, lines[..i], color)
    {
      var l := lines[i];
      assert l in lines;
      d.DrawFastVLine(l.x, l.y, l.h, color);
      assert lines[..i + 1][..i] == lines[..i];
    }
    assert lines[..|lines|] == lines;
  }

  /** A filled shape, as the set of its points; a rounded rectangle with the
      radius its corners have. */
  datatype Shape = Round(x0: int, y0: int, r: nat) | RoundedRect(x: int, y: int, w: nat, h: nat, r: nat)

  predicate Inside(s: Shape, p: Point) {
    match s
    case Round(x0, y0, r) => Disc(r, Abs(p.x - x0), Abs(p.y - y0))
    case RoundedRect(x, y, w, h, r) => FilledCircle.RoundRect(x, y, w, h, r, p)
  }

  /** A pixel of the buffer whose place on the screen is in the shape. */
  predicate InsideAt(f: Frame, s: Shape, u: int, v: int) {
    var (x, y) := Unrotate(f, u, v);
    Inside(s, Point(x, y))
  }

  /** Every pixel of the shape that is on the screen is drawn once, and no other
      bit changes. */
  ghost predicate Filled(f: Frame, old': seq<bv8>, new': seq<bv8>, s: Shape, color: int) {
    && |old'| == |new'| == Size(f)
    && forall u, v :: InPad(f, u, v) ==>
         Lit(f, new', u, v) ==
         if u < f.W && v < f.H && InsideAt(f, s, u, v) then Paint(color, Lit(f, old', u, v)) else Lit(f, old', u, v)
  }

  /** The shape on the screen, as getPixel sees it, by the colours' numbers. */
  lemma FilledSeen(f: Frame, old': seq<bv8>, new': seq<bv8>, s: Shape, color: int, x: int, y: int)
    requires Valid(f) && Filled(f, old', new', s, color) && OnScreen(f, x, y)
    ensures !Inside(s, Point(x, y)) ==> PixelAt(f, new', x, y) == PixelAt(f, old', x, y)
    ensures Inside(s, Point(x, y)) && color == 0 ==> !PixelAt(f, new', x, y)
    ensures Inside(s, Point(x, y)) && color == 1 ==> PixelAt(f, new', x, y)
    ensures Inside(s, Point(x, y)) && color == 2 ==> PixelAt(f, new', x, y) == !PixelAt(f, old', x, y)
  {
    var (u, v) := Rotate(f, x, y);
    RotateBijective(f, x, y, 0, 0);
    assert Unrotate(f, u, v) == (x, y);
    assert InPad(f, u, v);
  }

  lemma OnceIsFilled(f: Frame, buf: seq<bv8>, lines: seq<FilledCircle.VLine>, s: Shape, color: int)
    requires |buf| == Size(f) && Valid(f) && 0 <= color <= 2
    requires forall p :: FilledCircle.Touches(lines, p) == if Inside(s, p) then 1 else 0
    ensures Filled(f, buf, DrawLines(f, buf, lines, color), s, color)
  {
    var buf' := DrawLines(f, buf, lines, color);
    forall u, v | InPad(f, u, v)
      ensures Lit(f, buf', u, v) ==
        if u < f.W && v < f.H && InsideAt(f, s, u, v) then Paint(color, Lit(f, buf, u, v)) else Lit(f, buf, u, v)
    {
      DrawnPixel(f, buf, lines, color, u, v);
      var (x, y) := Unrotate(f, u, v);
      assert FilledCircle.Touches(lines, Point(x, y)) == if Inside(s, Point(x, y)) then 1 else 0;
    }
  }

  /** display.fillCircle, from the midpoint loop down to the bytes. */
  method FillCircle(d: Ssd1306.Ssd1306, x0: int16, y0: int16, r: int16, color: uint16)
    requires d.Ready() && color <= 2
    requires 0 <= r && Ssd1306.Tame(2 * r + 1)
    requires Ssd1306.Tame(x0 - r) && Ssd1306.Tame(x0 + r) && Ssd1306.Tame(y0 - r) && Ssd1306.Tame(y0 + r + 1)
    modifies d.buffer
    ensures Filled(d.Shape(), old(d.buffer[..]), d.buffer[..], Round(x0, y0, r), color)
  {
    var lines := FilledCircle.FillCircle(x0, y0, r);
    forall l | l in lines
      ensures TameLine(l)
    {
      FilledCircle.FillInSquare(x0, y0, r, lines, l);
    }
    OnceIsFilled(d.Shape(), d.buffer[..], lines, Round(x0, y0, r), color);
    DrawAll(d, lines, color);
  }

  /** display.fillRoundRect, likewise. */
  method FillRoundRect(d: Ssd1306.Ssd1306, x: int16, y: int16, w: int16, h: int16, r: int16, color: uint16)
    requires d.Ready() && color <= 2
    requires 0 <= w && 0 <= h && 0 <= r && Ssd1306.Tame(h)
    requires Ssd1306.Tame(x) && Ssd1306.Tame(x + w) && Ssd1306.Tame(y) && Ssd1306.Tame(y + h)
    modifies d.buffer
    ensures 2 * r <= w && 2 * r <= h ==>
              Filled(d.Shape(), old(d.buffer[..]), d.buffer[..], RoundedRect(x, y, w, h, r), color)
    ensures forall k: nat :: !(2 * r <= w && 2 * r <= h) && 2 * k <= w && 2 * k <= h && (w < 2 * k + 2 || h < 2 * k + 2) ==>
              Filled(d.Shape(), old(d.buffer[..]), d.buffer[..], RoundedRect(x, y, w, h, k), color)
  {
    var lines := FilledCircle.FillRoundRect(x, y, w, h, r);
    ghost var used: nat := r;
    if !(2 * r <= w && 2 * r <= h) {
      used := FilledCircle.LargestRadius(w, h, r);
    }
    assert FilledCircle.IsRoundRect(lines, x, y, w, h, used);
    forall l | l in lines
      ensures TameLine(l)
    {
      assert FilledCircle.InsideRect(l, x, y, w, h);
    }
    OnceIsFilled(d.Shape(), d.buffer[..], lines, RoundedRect(x, y, w, h, used), color);
    DrawAll(d, lines, color);
  }

  /** On a cleared display an inverse fill leaves the bytes a white fill leaves. */
  lemma InverseFill(f: Frame, blank: seq<bv8>, p: seq<bv8>, q: seq<bv8>, s: Shape)
    requires |blank| == Size(f) && forall i :: 0 <= i < |blank| ==> blank[i] == 0
    requires Filled(f, blank, p, s, INVERSE) && Filled(f, blank, q, s, WHITE)
    ensures p == q
  {
    forall u, v | InPad(f, u, v)
      ensures Lit(f, p, u, v) == Lit(f, q, u, v)
    {
      BlackPixel(f, blank, u, v);
    }
    SamePicture(f, p, q);
  }

  /** Lines that touch no pixel twice look the same inverse and white on a
      cleared display. */
  lemma OnceInverseIsWhite(f: Frame, buf: seq<bv8>, lines: seq<FilledCircle.VLine>)
    requires |buf| == Size(f) && Valid(f)
    requires forall i :: 0 <= i < |buf| ==> buf[i] == 0
    requires forall p :: FilledCircle.Touches(lines, p) <= 1
    ensures DrawLines(f, buf, lines, INVERSE) == DrawLines(f, buf, lines, WHITE)
  {
    InverseIsWhite(f, buf, lines);
  }
}
