/** Packed one-bit frame buffers as pictures: which byte and bit holds a pixel,
    the four rotations, and the pixel-by-pixel drawing loop that the fast lines
    of the two drivers have to agree with. */
module Raster {
  import opened CInts
  import opened Bytes

  /** Adafruit_SSD1306 stores eight vertical pixels a byte, lowest bit on top;
      GFXcanvas1 eight horizontal ones, highest bit on the left. */
  datatype Layout = Pages | Rows

  /** The shape of a buffer: WIDTH and HEIGHT as manufactured, and the rotation. */
  datatype Frame = Frame(layout: Layout, W: nat, H: nat, rotation: nat)

  predicate Valid(f: Frame) {
    f.rotation < 4
  }

  /** The pixels the buffer has room for, padding included. */
  function PadW(f: Frame): nat {
    if f.layout.Pages? then f.W else 8 * ((f.W + 7) / 8)
  }

  function PadH(f: Frame): nat {
    if f.layout.Pages? then 8 * ((f.H + 7) / 8) else f.H
  }

  function Stride(f: Frame): nat {
    if f.layout.Pages? then f.W else (f.W + 7) / 8
  }

  function Size(f: Frame): nat {
    if f.layout.Pages? then Stride(f) * ((f.H + 7) / 8) else Stride(f) * f.H
  }

  predicate InPad(f: Frame, x: int, y: int) {
    0 <= x < PadW(f) && 0 <= y < PadH(f)
  }

  /** Column and line of the byte that holds a pixel, and its bit there. */
  function ByteCol(f: Frame, x: int): int {
    if f.layout.Pages? then x else x / 8
  }

  function ByteLine(f: Frame, y: nat): nat {
    if f.layout.Pages? then y / 8 else y
  }

  function BitOf(f: Frame, x: int, y: int): (k: nat)
    ensures k < 8
  {
    if f.layout.Pages? then y % 8 else 7 - x % 8
  }

  function ByteOf(f: Frame, x: int, y: nat): int {
    ByteCol(f, x) + Times(ByteLine(f, y), Stride(f))
  }

  lemma ByteInside(f: Frame, x: int, y: int)
    requires InPad(f, x, y)
    ensures 0 <= ByteCol(f, x) < Stride(f)
    ensures 0 <= ByteOf(f, x, y) < Size(f)
  {
    var lines := if f.layout.Pages? then (f.H + 7) / 8 else f.H;
    TimesIsProduct(ByteLine(f, y), Stride(f));
    ProductMono(0, ByteLine(f, y), Stride(f));
    ProductMono(ByteLine(f, y) + 1, lines, Stride(f));
  }

  /** No two pixels share a bit. */
  lemma SamePlace(f: Frame, x: int, y: int, x': int, y': int)
    requires InPad(f, x, y) && InPad(f, x', y')
    requires ByteOf(f, x, y) == ByteOf(f, x', y')
    ensures ByteCol(f, x) == ByteCol(f, x') && ByteLine(f, y) == ByteLine(f, y')
    ensures BitOf(f, x, y) == BitOf(f, x', y') ==> x == x' && y == y'
  {
    ByteInside(f, x, y);
    ByteInside(f, x', y');
    TimesIsProduct(ByteLine(f, y), Stride(f));
    TimesIsProduct(ByteLine(f, y'), Stride(f));
    SameCell(ByteCol(f, x), ByteLine(f, y), ByteCol(f, x'), ByteLine(f, y'), Stride(f));
  }

  lemma SameCell(c: int, l: int, c': int, l': int, stride: nat)
    requires 0 <= c < stride && 0 <= c' < stride && c + l * stride == c' + l' * stride
    ensures c == c' && l == l'
  {
    if l < l' {
      ProductMono(l + 1, l', stride);
    }
    if l' < l {
      ProductMono(l' + 1, l, stride);
    }
  }

  /** Every bit of the buffer is some pixel. */
  lemma EveryBit(f: Frame, i: nat, k: nat) returns (x: int, y: int)
    requires i < Size(f) && k < 8
    ensures InPad(f, x, y) && ByteOf(f, x, y) == i && BitOf(f, x, y) == k
  {
    var s := Stride(f);
    var lines := if f.layout.Pages? then (f.H + 7) / 8 else f.H;
    var col, line := CellOf(i, s, lines);
    if f.layout.Pages? {
      x, y := col, 8 * line + k;
    } else {
      x, y := 8 * col + (7 - k), line;
    }
    TimesIsProduct(line, s);
  }

  lemma CellOf(i: nat, stride: nat, lines: nat) returns (col: nat, line: nat)
    requires i < stride * lines
    ensures col < stride && line < lines && i == col + line * stride
  {
    assert stride > 0;
    col, line := i % stride, i / stride;
    assert i == col + line * stride;
    if line >= lines {
      ProductMono(lines, line, stride);
    }
  }

  predicate Lit(f: Frame, buf: seq<bv8>, x: int, y: int)
    requires |buf| == Size(f) && InPad(f, x, y)
  {
    ByteInside(f, x, y);
    Bit(buf[ByteOf(f, x, y)], BitOf(f, x, y))
  }

  /** The pixels x0 <= x < x1, y0 <= y < y1. */
  datatype Rect = Rect(x0: int, y0: int, x1: int, y1: int)

  predicate In(a: Rect, x: int, y: int) {
    a.x0 <= x < a.x1 && a.y0 <= y < a.y1
  }

  /** Exactly the pixels of a rectangle are drawn, padding and all the rest kept. */
  ghost predicate Painted(f: Frame, old': seq<bv8>, new': seq<bv8>, a: Rect, color: int) {
    && |old'| == |new'| == Size(f)
    && forall x, y :: InPad(f, x, y) ==>
         Lit(f, new', x, y) == if In(a, x, y) then Paint(color, Lit(f, old', x, y)) else Lit(f, old', x, y)
  }

  /** A picture has one buffer. */
  lemma PaintedUnique(f: Frame, old': seq<bv8>, p: seq<bv8>, q: seq<bv8>, a: Rect, b: Rect, color: int)
    requires Painted(f, old', p, a, color) && Painted(f, old', q, b, color)
    requires forall x, y :: InPad(f, x, y) ==> (In(a, x, y) <==> In(b, x, y))
    ensures p == q
  {
    forall i | 0 <= i < |p|
      ensures p[i] == q[i]
    {
      forall k | 0 <= k < 8
        ensures Bit(p[i], k) == Bit(q[i], k)
      {
        var x, y := EveryBit(f, i, k);
        assert Lit(f, p, x, y) == Lit(f, q, x, y);
      }
      SameBits(p[i], q[i]);
    }
  }

  /** Disjoint rectangles drawn one after the other. */
  lemma PaintedThen(f: Frame, p: seq<bv8>, q: seq<bv8>, r: seq<bv8>, a: Rect, b: Rect, c: Rect, color: int)
    requires Painted(f, p, q, a, color) && Painted(f, q, r, b, color)
    requires forall x, y :: InPad(f, x, y) ==> !(In(a, x, y) && In(b, x, y))
    requires forall x, y :: InPad(f, x, y) ==> (In(c, x, y) <==> In(a, x, y) || In(b, x, y))
    ensures Painted(f, p, r, c, color)
  {
  }

  /** One byte drawn under a mask. */
  lemma PaintByte(f: Frame, buf: seq<bv8>, i: nat, mask: bv8, a: Rect, color: int)
    requires i < |buf| == Size(f) && 0 <= color <= 2
    requires forall x, y :: InPad(f, x, y) ==>
               (In(a, x, y) <==> ByteOf(f, x, y) == i && Bit(mask, BitOf(f, x, y)))
    ensures Painted(f, buf, buf[i := Stamp(buf[i], mask, color)], a, color)
  {
    var buf' := buf[i := Stamp(buf[i], mask, color)];
    forall x, y | InPad(f, x, y)
      ensures Lit(f, buf', x, y) == if In(a, x, y) then Paint(color, Lit(f, buf, x, y)) else Lit(f, buf, x, y)
    {
      ByteInside(f, x, y);
      StampBit(buf[i], mask, color, BitOf(f, x, y));
    }
  }

  // --------------------------------------------------- rotation and clipping

  /** The screen as the caller sees it. */
  function Width(f: Frame): nat {
    if f.rotation % 2 == 0 then f.W else f.H
  }

  function Height(f: Frame): nat {
    if f.rotation % 2 == 0 then f.H else f.W
  }

  predicate OnScreen(f: Frame, x: int, y: int) {
    0 <= x < Width(f) && 0 <= y < Height(f)
  }

  function Rotate(f: Frame, x: int, y: int): (int, int) {
    if f.rotation == 1 then (f.W - 1 - y, x)
    else if f.rotation == 2 then (f.W - 1 - x, f.H - 1 - y)
    else if f.rotation == 3 then (y, f.H - 1 - x)
    else (x, y)
  }

  /** The screen maps one to one onto the buffer's WIDTH x HEIGHT pixels. */
  lemma RotateBijective(f: Frame, x: int, y: int, u: int, v: int)
    requires Valid(f)
    ensures OnScreen(f, x, y) <==> 0 <= Rotate(f, x, y).0 < f.W && 0 <= Rotate(f, x, y).1 < f.H
    ensures Rotate(f, x, y) == Rotate(f, u, v) ==> x == u && y == v
    ensures exists a, b :: Rotate(f, a, b) == (u, v)
  {
    var (a, b) := Rotate(f.(rotation := (4 - f.rotation) % 4, W := Width(f), H := Height(f)), u, v);
    assert Rotate(f, a, b) == (u, v);
  }

  function Turn(f: Frame, a: Rect): Rect {
    if f.rotation == 1 then Rect(f.W - a.y1, a.x0, f.W - a.y0, a.x1)
    else if f.rotation == 2 then Rect(f.W - a.x1, f.H - a.y1, f.W - a.x0, f.H - a.y0)
    else if f.rotation == 3 then Rect(a.y0, f.H - a.x1, a.y1, f.H - a.x0)
    else a
  }

  function Cut(a: Rect, w: int, h: int): Rect {
    Rect(Max(a.x0, 0), Max(a.y0, 0), Min(a.x1, w), Min(a.y1, h))
  }

  /** Clipping to the screen and then rotating is rotating and then clipping to
      the buffer. */
  lemma TurnCut(f: Frame, a: Rect, x: int, y: int)
    requires Valid(f)
    ensures Turn(f, Cut(a, Width(f), Height(f))) == Cut(Turn(f, a), f.W, f.H)
    ensures var (u, v) := Rotate(f, x, y); In(Turn(f, a), u, v) <==> In(a, x, y)
  {
  }

  // ---------------------------------------------------- the pixel by pixel way

  /** drawPixel of either driver. */
  function DrawPixel(f: Frame, buf: seq<bv8>, x: int, y: int, color: int): (buf': seq<bv8>)
    requires |buf| == Size(f) && Valid(f)
    ensures |buf'| == Size(f)
  {
    if OnScreen(f, x, y) then
      var (u, v) := Rotate(f, x, y);
      RotateBijective(f, x, y, u, v);
      ByteInside(f, u, v);
      buf[ByteOf(f, u, v) := Stamp(buf[ByteOf(f, u, v)], Mask(BitOf(f, u, v)), color)]
    else buf
  }

  /** n pixels from (x, y), rightward or downward. */
  function Run(x: int, y: int, n: int, across: bool): Rect {
    if across then Rect(x, y, x + n, y + 1) else Rect(x, y, x + 1, y + n)
  }

  function DrawRun(f: Frame, buf: seq<bv8>, x: int, y: int, n: int, across: bool, color: int): (buf': seq<bv8>)
    requires |buf| == Size(f) && Valid(f)
    ensures |buf'| == Size(f)
    decreases n
  {
    if n <= 0 then buf else
    var (u, v) := if across then (x + n - 1, y) else (x, y + n - 1);
    DrawPixel(f, DrawRun(f, buf, x, y, n - 1, across, color), u, v, color)
  }

  /** The buffer's part of a rectangle of the rotated screen. */
  function OnBuffer(f: Frame, a: Rect): Rect {
    Cut(Turn(f, a), f.W, f.H)
  }

  /** The screen position of a buffer pixel. */
  function Unrotate(f: Frame, u: int, v: int): (int, int) {
    if f.rotation == 1 then (v, f.W - 1 - u)
    else if f.rotation == 2 then (f.W - 1 - u, f.H - 1 - v)
    else if f.rotation == 3 then (f.H - 1 - v, u)
    else (u, v)
  }

  lemma InOnBuffer(f: Frame, a: Rect, u: int, v: int)
    requires Valid(f)
    ensures var (x, y) := Unrotate(f, u, v);
      In(OnBuffer(f, a), u, v) <==> 0 <= u < f.W && 0 <= v < f.H && In(a, x, y)
  {
  }

  lemma MaskedPixel(f: Frame, u: int, v: int, p: int, q: int)
    requires InPad(f, u, v) && InPad(f, p, q)
    ensures In(Rect(u, v, u + 1, v + 1), p, q) <==>
            ByteOf(f, p, q) == ByteOf(f, u, v) && Bit(Mask(BitOf(f, u, v)), BitOf(f, p, q))
  {
    MaskBit(BitOf(f, u, v), BitOf(f, p, q));
    if ByteOf(f, p, q) == ByteOf(f, u, v) {
      SamePlace(f, p, q, u, v);
    }
  }

  lemma PixelOnBuffer(f: Frame, x: int, y: int)
    requires Valid(f)
    ensures var (u, v) := Rotate(f, x, y);
      && (OnScreen(f, x, y) ==> InPad(f, u, v) && OnBuffer(f, Rect(x, y, x + 1, y + 1)) == Rect(u, v, u + 1, v + 1))
  {
  }

  lemma PixelOffBuffer(f: Frame, x: int, y: int, p: int, q: int)
    requires Valid(f) && !OnScreen(f, x, y)
    ensures !In(OnBuffer(f, Rect(x, y, x + 1, y + 1)), p, q)
  {
    InOnBuffer(f, Rect(x, y, x + 1, y + 1), p, q);
  }

  /** One pixel drawn through its byte. */
  lemma PaintPixel(f: Frame, buf: seq<bv8>, u: int, v: int, color: int)
    requires |buf| == Size(f) && InPad(f, u, v) && 0 <= color <= 2
    ensures 0 <= ByteOf(f, u, v) < |buf|
    ensures Painted(f, buf, buf[ByteOf(f, u, v) := Stamp(buf[ByteOf(f, u, v)], Mask(BitOf(f, u, v)), color)],
                    Rect(u, v, u + 1, v + 1), color)
  {
    ByteInside(f, u, v);
    forall p, q | InPad(f, p, q)
      ensures In(Rect(u, v, u + 1, v + 1), p, q) <==>
              ByteOf(f, p, q) == ByteOf(f, u, v) && Bit(Mask(BitOf(f, u, v)), BitOf(f, p, q))
    {
      MaskedPixel(f, u, v, p, q);
    }
    PaintByte(f, buf, ByteOf(f, u, v), Mask(BitOf(f, u, v)), Rect(u, v, u + 1, v + 1), color);
  }

  lemma DrawPixelPaints(f: Frame, buf: seq<bv8>, x: int, y: int, color: int)
    requires |buf| == Size(f) && Valid(f) && 0 <= color <= 2
    ensures Painted(f, buf, DrawPixel(f, buf, x, y, color), OnBuffer(f, Rect(x, y, x + 1, y + 1)), color)
  {
    PixelOnBuffer(f, x, y);
    if OnScreen(f, x, y) {
      var (u, v) := Rotate(f, x, y);
      PaintPixel(f, buf, u, v, color);
    } else {
      forall p, q | InPad(f, p, q)
        ensures !In(OnBuffer(f, Rect(x, y, x + 1, y + 1)), p, q)
      {
        PixelOffBuffer(f, x, y, p, q);
      }
    }
  }

  /** A run is a shorter run and its last pixel. */
  lemma RunSplit(f: Frame, x: int, y: int, n: int, across: bool, u: int, v: int, p: int, q: int)
    requires Valid(f) && n > 0
    requires (u, v) == if across then (x + n - 1, y) else (x, y + n - 1)
    ensures var a, b := In(OnBuffer(f, Run(x, y, n - 1, across)), p, q), In(OnBuffer(f, Rect(u, v, u + 1, v + 1)), p, q);
      !(a && b) && (In(OnBuffer(f, Run(x, y, n, across)), p, q) <==> a || b)
  {
    InOnBuffer(f, Run(x, y, n - 1, across), p, q);
    InOnBuffer(f, Rect(u, v, u + 1, v + 1), p, q);
    InOnBuffer(f, Run(x, y, n, across), p, q);
  }

  lemma PaintLonger(f: Frame, buf: seq<bv8>, mid: seq<bv8>, buf': seq<bv8>,
                    x: int, y: int, n: int, across: bool, u: int, v: int, color: int)
    requires Valid(f) && n > 0
    requires (u, v) == if across then (x + n - 1, y) else (x, y + n - 1)
    requires Painted(f, buf, mid, OnBuffer(f, Run(x, y, n - 1, across)), color)
    requires Painted(f, mid, buf', OnBuffer(f, Rect(u, v, u + 1, v + 1)), color)
    ensures Painted(f, buf, buf', OnBuffer(f, Run(x, y, n, across)), color)
  {
    var a, b, c := OnBuffer(f, Run(x, y, n - 1, across)), OnBuffer(f, Rect(u, v, u + 1, v + 1)),
                   OnBuffer(f, Run(x, y, n, across));
    forall p, q | InPad(f, p, q)
      ensures !(In(a, p, q) && In(b, p, q)) && (In(c, p, q) <==> In(a, p, q) || In(b, p, q))
    {
      RunSplit(f, x, y, n, across, u, v, p, q);
    }
    PaintedThen(f, buf, mid, buf', a, b, c, color);
  }

  lemma {:induction false} DrawRunPaints(f: Frame, buf: seq<bv8>, x: int, y: int, n: int, across: bool, color: int)
    requires |buf| == Size(f) && Valid(f) && 0 <= color <= 2
    ensures Painted(f, buf, DrawRun(f, buf, x, y, n, across, color), OnBuffer(f, Run(x, y, n, across)), color)
    decreases n
  {
    if n > 0 {
      var (u, v) := if across then (x + n - 1, y) else (x, y + n - 1);
      var mid := DrawRun(f, buf, x, y, n - 1, across, color);
      DrawRunPaints(f, buf, x, y, n - 1, across, color);
      DrawPixelPaints(f, mid, u, v, color);
      PaintLonger(f, buf, mid, DrawRun(f, buf, x, y, n, across, color), x, y, n, across, u, v, color);
    } else {
      forall p, q | InPad(f, p, q)
        ensures !In(OnBuffer(f, Run(x, y, n, across)), p, q)
      {
        InOnBuffer(f, Run(x, y, n, across), p, q);
      }
    }
  }

  /** A fast line that paints the rotated run has done what the loop does, bit
      for bit. */
  lemma FastIsLoop(f: Frame, buf: seq<bv8>, buf': seq<bv8>, x: int, y: int, n: int, across: bool, color: int)
    requires |buf| == Size(f) && Valid(f) && 0 <= color <= 2
    requires Painted(f, buf, buf', OnBuffer(f, Run(x, y, n, across)), color)
    ensures buf' == DrawRun(f, buf, x, y, n, across, color)
  {
    DrawRunPaints(f, buf, x, y, n, across, color);
    var a := OnBuffer(f, Run(x, y, n, across));
    PaintedUnique(f, buf, buf', DrawRun(f, buf, x, y, n, across, color), a, a, color);
  }

  // ------------------------------------------------------------ reading back

  /** What getPixel of either driver answers. */
  predicate PixelAt(f: Frame, buf: seq<bv8>, x: int, y: int)
    requires |buf| == Size(f) && Valid(f)
  {
    if OnScreen(f, x, y) then
      RotateBijective(f, x, y, 0, 0);
      Lit(f, buf, Rotate(f, x, y).0, Rotate(f, x, y).1)
    else false
  }

  /** Where the bit is that getPixel looks at. */
  lemma PixelIsBit(f: Frame, buf: seq<bv8>, x: int, y: int, i: int, k: nat)
    requires |buf| == Size(f) && Valid(f) && OnScreen(f, x, y)
    requires var (u, v) := Rotate(f, x, y); 0 <= v && i == ByteOf(f, u, v) && k == BitOf(f, u, v)
    ensures 0 <= i < |buf| && PixelAt(f, buf, x, y) == Bit(buf[i], k)
  {
    RotateBijective(f, x, y, 0, 0);
    ByteInside(f, Rotate(f, x, y).0, Rotate(f, x, y).1);
  }

  /** A painted rectangle, as getPixel sees it. */
  lemma PaintedSeen(f: Frame, old': seq<bv8>, new': seq<bv8>, a: Rect, color: int, x: int, y: int)
    requires Valid(f) && Painted(f, old', new', OnBuffer(f, a), color)
    ensures PixelAt(f, new', x, y) ==
            if OnScreen(f, x, y) && In(a, x, y) then Paint(color, PixelAt(f, old', x, y)) else PixelAt(f, old', x, y)
  {
    if OnScreen(f, x, y) {
      var (u, v) := Rotate(f, x, y);
      RotateBijective(f, x, y, 0, 0);
      InOnBuffer(f, a, u, v);
      assert Unrotate(f, u, v) == (x, y);
      assert InPad(f, u, v);
    }
  }

  /** After a run is drawn getPixel sees the colour on it, where it is on the
      screen, and everything else as before. */
  lemma RunReadBack(f: Frame, buf: seq<bv8>, x: int, y: int, n: int, across: bool, color: int, p: int, q: int)
    requires |buf| == Size(f) && Valid(f) && 0 <= color <= 2
    ensures PixelAt(f, DrawRun(f, buf, x, y, n, across, color), p, q) ==
            if OnScreen(f, p, q) && In(Run(x, y, n, across), p, q) then Paint(color, PixelAt(f, buf, p, q))
            else PixelAt(f, buf, p, q)
  {
    DrawRunPaints(f, buf, x, y, n, across, color);
    PaintedSeen(f, buf, DrawRun(f, buf, x, y, n, across, color), Run(x, y, n, across), color, p, q);
  }

  /** The same, by the colours' numbers: 0 clears, 1 sets, 2 inverts. */
  lemma RunReads(f: Frame, buf: seq<bv8>, x: int, y: int, n: int, across: bool, p: int, q: int)
    requires |buf| == Size(f) && Valid(f)
    ensures var on := OnScreen(f, p, q) && if across then q == y && x <= p < x + n else p == x && y <= q < y + n;
      && PixelAt(f, DrawRun(f, buf, x, y, n, across, 0), p, q) == (!on && PixelAt(f, buf, p, q))
      && PixelAt(f, DrawRun(f, buf, x, y, n, across, 1), p, q) == (on || PixelAt(f, buf, p, q))
      && PixelAt(f, DrawRun(f, buf, x, y, n, across, 2), p, q) == (on != PixelAt(f, buf, p, q))
  {
    RunReadBack(f, buf, x, y, n, across, 0, p, q);
    RunReadBack(f, buf, x, y, n, across, 1, p, q);
    RunReadBack(f, buf, x, y, n, across, 2, p, q);
  }

  // -------------------------------------------- the pixel's place, in numbers

  /** Bit k of byte i is cleared, set or inverted, and every other bit kept; a
      colour beyond 2 draws nothing. */
  ghost predicate BitDrawn(old': seq<bv8>, new': seq<bv8>, i: int, k: int, color: int) {
    && |new'| == |old'| && 0 <= i < |old'| && 0 <= k < 8
    && Bit(new'[i], k) == (if color == 0 then false else if color == 1 then true
                           else if color == 2 then !Bit(old'[i], k) else Bit(old'[i], k))
    && (forall m :: 0 <= m < 8 && m != k ==> Bit(new'[i], m) == Bit(old'[i], m))
    && (forall j :: 0 <= j < |old'| && j != i ==> new'[j] == old'[j])
  }

  lemma StampDraws(old': seq<bv8>, i: int, k: int, color: int)
    requires 0 <= i < |old'| && 0 <= k < 8
    ensures BitDrawn(old', old'[i := Stamp(old'[i], Mask(k), color)], i, k, color)
  {
    forall m | 0 <= m < 8
      ensures 0 <= color <= 2 ==> Bit(Stamp(old'[i], Mask(k), color), m) ==
                                  if m == k then Paint(color, Bit(old'[i], m)) else Bit(old'[i], m)
    {
      MaskBit(k, m);
      if 0 <= color <= 2 {
        StampBit(old'[i], Mask(k), color, m);
      }
    }
  }

  lemma PlaceDrawn(f: Frame, buf: seq<bv8>, x: int, y: int, color: int, u: int, v: int)
    requires |buf| == Size(f) && Valid(f) && OnScreen(f, x, y) && Rotate(f, x, y) == (u, v)
    ensures 0 <= v && BitDrawn(buf, DrawPixel(f, buf, x, y, color), ByteOf(f, u, v), BitOf(f, u, v), color)
  {
    RotateBijective(f, x, y, u, v);
    ByteInside(f, u, v);
    StampDraws(buf, ByteOf(f, u, v), BitOf(f, u, v), color);
  }

  predicate BitAt(buf: seq<bv8>, i: int, k: int) {
    0 <= i < |buf| && 0 <= k < 8 && Bit(buf[i], k)
  }

  /** Which bit of which byte of the OLED's buffer drawPixel draws for the point
      (x, y), in each rotation, and getPixel reads. */
  lemma OledPlace(f: Frame, buf: seq<bv8>, x: int, y: int, color: int)
    requires |buf| == Size(f) && Valid(f) && f.layout.Pages?
    requires 0 <= x < (if f.rotation % 2 == 0 then f.W else f.H) && 0 <= y < (if f.rotation % 2 == 0 then f.H else f.W)
    ensures
      var i := if f.rotation == 0 then x + y / 8 * f.W else if f.rotation == 1 then f.W - 1 - y + x / 8 * f.W
               else if f.rotation == 2 then f.W - 1 - x + (f.H - 1 - y) / 8 * f.W else y + (f.H - 1 - x) / 8 * f.W;
      var k := if f.rotation == 0 then y % 8 else if f.rotation == 1 then x % 8
               else if f.rotation == 2 then (f.H - 1 - y) % 8 else (f.H - 1 - x) % 8;
      BitDrawn(buf, DrawPixel(f, buf, x, y, color), i, k, color) && PixelAt(f, buf, x, y) == BitAt(buf, i, k)
  {
    var (u, v) := Rotate(f, x, y);
    PlaceDrawn(f, buf, x, y, color, u, v);
    OledNumbers(f, x, y, ByteOf(f, u, v), BitOf(f, u, v));
    PixelIsBit(f, buf, x, y, ByteOf(f, u, v), BitOf(f, u, v));
  }

  lemma OledNumbers(f: Frame, x: int, y: int, i: int, k: int)
    requires Valid(f) && f.layout.Pages? && OnScreen(f, x, y)
    requires var (u, v) := Rotate(f, x, y); v >= 0 && i == ByteOf(f, u, v) && k == BitOf(f, u, v)
    ensures
      && i == (if f.rotation == 0 then x + y / 8 * f.W else if f.rotation == 1 then f.W - 1 - y + x / 8 * f.W
               else if f.rotation == 2 then f.W - 1 - x + (f.H - 1 - y) / 8 * f.W else y + (f.H - 1 - x) / 8 * f.W)
      && k == if f.rotation == 0 then y % 8 else if f.rotation == 1 then x % 8
               else if f.rotation == 2 then (f.H - 1 - y) % 8 else (f.H - 1 - x) % 8
  {
    TimesIsProduct(Rotate(f, x, y).1 / 8, f.W);
  }

  /** The same for the canvas. */
  lemma CanvasPlace(f: Frame, buf: seq<bv8>, x: int, y: int, color: int)
    requires |buf| == Size(f) && Valid(f) && f.layout.Rows?
    requires 0 <= x < (if f.rotation % 2 == 0 then f.W else f.H) && 0 <= y < (if f.rotation % 2 == 0 then f.H else f.W)
    ensures var stride := (f.W + 7) / 8;
      var i := if f.rotation == 0 then x / 8 + y * stride else if f.rotation == 1 then (f.W - 1 - y) / 8 + x * stride
               else if f.rotation == 2 then (f.W - 1 - x) / 8 + (f.H - 1 - y) * stride else y / 8 + (f.H - 1 - x) * stride;
      var k := if f.rotation == 0 then 7 - x % 8 else if f.rotation == 1 then 7 - (f.W - 1 - y) % 8
               else if f.rotation == 2 then 7 - (f.W - 1 - x) % 8 else 7 - y % 8;
      BitDrawn(buf, DrawPixel(f, buf, x, y, color), i, k, color) && PixelAt(f, buf, x, y) == BitAt(buf, i, k)
  {
    var (u, v) := Rotate(f, x, y);
    PlaceDrawn(f, buf, x, y, color, u, v);
    CanvasNumbers(f, x, y, ByteOf(f, u, v), BitOf(f, u, v));
    PixelIsBit(f, buf, x, y, ByteOf(f, u, v), BitOf(f, u, v));
  }

  lemma CanvasNumbers(f: Frame, x: int, y: int, i: int, k: int)
    requires Valid(f) && f.layout.Rows? && OnScreen(f, x, y)
    requires var (u, v) := Rotate(f, x, y); v >= 0 && i == ByteOf(f, u, v) && k == BitOf(f, u, v)
    ensures var stride := (f.W + 7) / 8;
      && i == (if f.rotation == 0 then x / 8 + y * stride else if f.rotation == 1 then (f.W - 1 - y) / 8 + x * stride
               else if f.rotation == 2 then (f.W - 1 - x) / 8 + (f.H - 1 - y) * stride else y / 8 + (f.H - 1 - x) * stride)
      && k == if f.rotation == 0 then 7 - x % 8 else if f.rotation == 1 then 7 - (f.W - 1 - y) % 8
               else if f.rotation == 2 then 7 - (f.W - 1 - x) % 8 else 7 - y % 8
  {
    TimesIsProduct(Rotate(f, x, y).1, (f.W + 7) / 8);
  }

  /** Off the screen nothing is drawn, and nothing read. */
  lemma OffScreen(f: Frame, buf: seq<bv8>, x: int, y: int, color: int)
    requires |buf| == Size(f) && Valid(f)
    requires !(0 <= x < (if f.rotation % 2 == 0 then f.W else f.H) && 0 <= y < (if f.rotation % 2 == 0 then f.H else f.W))
    ensures DrawPixel(f, buf, x, y, color) == buf && !PixelAt(f, buf, x, y)
  {
  }

  /** Reading a drawn pixel back. */
  lemma PixelReads(f: Frame, buf: seq<bv8>, x: int, y: int)
    requires |buf| == Size(f) && Valid(f) && OnScreen(f, x, y)
    ensures !PixelAt(f, DrawPixel(f, buf, x, y, 0), x, y)
    ensures PixelAt(f, DrawPixel(f, buf, x, y, 1), x, y)
    ensures PixelAt(f, DrawPixel(f, buf, x, y, 2), x, y) == !PixelAt(f, buf, x, y)
  {
    RunReads(f, buf, x, y, 1, true, x, y);
    assert forall color :: DrawRun(f, buf, x, y, 1, true, color) == DrawPixel(f, DrawRun(f, buf, x, y, 0, true, color), x, y, color);
  }
}
