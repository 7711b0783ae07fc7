/** GFXcanvas1: the one-bit off-screen canvas. */
module Canvas1 {
  import opened CInts
  import opened Bytes
  import opened Raster

  /** The canvas has two colours: any non-zero one sets the pixel. */
  function Ink(color: int): int {
    if color != 0 then WHITE else BLACK
  }

  /** The source's two branches on the colour, for one byte. */
  function Put(b: bv8, mask: bv8, color: int): (b': bv8)
    ensures b' == Stamp(b, mask, Ink(color))
  {
    if color != 0 then b | mask else b & !mask
  }

  /** A byte holds eight columns of a row; under a mask, columns a to b - 1. */
  lemma PaintColumns(f: Frame, buf: seq<bv8>, c: int, y: nat, i: int, mask: bv8, a: nat, b: nat, color: int)
    requires f.layout.Rows? && |buf| == Size(f) && 0 <= color <= 2
    requires 0 <= c < Stride(f) && 0 <= y < f.H && i == ByteOf(f, 8 * c, y) && a <= b <= 8
    requires forall k :: 0 <= k < 8 ==> (Bit(mask, k) <==> a <= 7 - k < b)
    ensures 0 <= i < |buf|
    ensures Painted(f, buf, buf[i := Stamp(buf[i], mask, color)], Rect(8 * c + a, y, 8 * c + b, y + 1), color)
  {
    var area := Rect(8 * c + a, y, 8 * c + b, y + 1);
    ByteInside(f, 8 * c, y);
    forall p, q | InPad(f, p, q)
      ensures In(area, p, q) <==> ByteOf(f, p, q) == i && Bit(mask, BitOf(f, p, q))
    {
      if ByteOf(f, p, q) == i {
        SamePlace(f, p, q, 8 * c, y);
      }
    }
    PaintByte(f, buf, i, mask, area, color);
  }

  lemma PaintWhole(f: Frame, buf: seq<bv8>, c: int, y: nat, i: int, color: int)
    requires f.layout.Rows? && |buf| == Size(f) && 0 <= color <= 1
    requires 0 <= c < Stride(f) && 0 <= y < f.H && i == ByteOf(f, 8 * c, y)
    ensures 0 <= i < |buf|
    ensures Painted(f, buf, buf[i := if color == WHITE then 0xFF else 0], Rect(8 * c, y, 8 * c + 8, y + 1), color)
  {
    ByteInside(f, 8 * c, y);
    forall k | 0 <= k < 8
      ensures Bit(0xFF, k)
    {
      AllBits(k);
    }
    WholeByte(buf[i], color);
    PaintColumns(f, buf, c, y, i, 0xFF, 0, 8, color);
  }

  /** Columns painted so far, and the next ones to their right. */
  lemma PaintRight(f: Frame, p: seq<bv8>, q: seq<bv8>, r: seq<bv8>, y: int, x: int, m: int, z: int, color: int)
    requires x <= m <= z
    requires Painted(f, p, q, Rect(x, y, m, y + 1), color)
    requires Painted(f, q, r, Rect(m, y, z, y + 1), color)
    ensures Painted(f, p, r, Rect(x, y, z, y + 1), color)
  {
    PaintedThen(f, p, q, r, Rect(x, y, m, y + 1), Rect(m, y, z, y + 1), Rect(x, y, z, y + 1), color);
  }

  /** The bit masks of both partial bytes: bits 0x80 >> i for i from `from` on,
      while the byte and the run last. */
  method BitMask(from: int16, bits: nat) returns (mask: bv8, used: nat)
    requires 0 <= from < 8
    ensures used == Min(8 - from, bits)
    ensures forall k :: 0 <= k < 8 ==> (Bit(mask, k) <==> from <= 7 - k < from + used)
  {
    mask := 0;
    var i: int16 := from;
    used := 0;
    forall k | 0 <= k < 8
      ensures !Bit(0, k)
    {
    }
    while i < 8 && used < bits
      invariant from <= i <= 8 && used == i - from <= bits
      invariant forall k :: 0 <= k < 8 ==> (Bit(mask, k) <==> from <= 7 - k < i)
    {
      forall k | 0 <= k < 8
        ensures Bit(mask | Mask(7 - i), k) <==> Bit(mask, k) || k == 7 - i
      {
        OrBit(mask, Mask(7 - i), k);
        MaskBit(7 - i, k);
      }
      ghost var before := mask;
      MaskIsShift(i);
      mask := mask | ((0x80 as bv8) >> i);
      assert forall k :: 0 <= k < 8 ==> (Bit(mask, k) <==> Bit(before, k) || k == 7 - i);
      used := used + 1;
      i := i + 1;
    }
  }

  class GFXcanvas1 {
    const WIDTH: int16
    const HEIGHT: int16
    var rotation: uint8
    const buffer: array<bv8>

    ghost function Shape(): Frame
      requires 0 < WIDTH && 0 < HEIGHT
      reads this
    {
      Frame(Rows, WIDTH, HEIGHT, rotation)
    }

    ghost predicate Ready()
      reads this
    {
      0 < WIDTH && 0 < HEIGHT && Valid(Shape()) && buffer.Length == Size(Shape())
    }

    constructor (w: int16, h: int16)
      requires 0 < w && 0 < h && ((w + 7) / 8) * h < 0x1_0000
      ensures Ready() && fresh(buffer) && WIDTH == w && HEIGHT == h && rotation == 0 && buffer.Length == ((w + 7) / 8) * h
      ensures forall i :: 0 <= i < buffer.Length ==> buffer[i] == 0
    {
      WIDTH, HEIGHT, rotation := w, h, 0;
      var bytes: uint16 := ((w + 7) / 8) * h;
      buffer := new bv8[bytes](_ => 0);
    }

    method DrawPixel(x0: int16, y0: int16, color: uint16)
      requires Ready()
      modifies buffer
      ensures buffer[..] == Raster.DrawPixel(Shape(), old(buffer[..]), x0, y0, if color > 0 then 1 else 0)
    {
      var w := if rotation % 2 == 0 then WIDTH else HEIGHT;
      var h := if rotation % 2 == 0 then HEIGHT else WIDTH;
      if x0 < 0 || y0 < 0 || x0 >= w || y0 >= h {
        return;
      }
      var x, y := RotatePoint(x0, y0);
      ByteInside(Shape(), x, y);
      TimesIsProduct(y, (WIDTH + 7) / 8);
      var i := (x / 8) + y * ((WIDTH + 7) / 8);
      assert i == ByteOf(Shape(), x, y);
      MaskIsShift(x % 8);
      buffer[i] := Put(buffer[i], (0x80 as bv8) >> (x % 8), color);
    }

    /** The switch on the rotation, which takes a point on the screen to its
        place in the buffer. */
    method RotatePoint(x0: int16, y0: int16) returns (x: int16, y: int16)
      requires Ready() && OnScreen(Shape(), x0, y0)
      ensures (x, y) == Rotate(Shape(), x0, y0) && 0 <= x < WIDTH && 0 <= y < HEIGHT
    {
      x, y := x0, y0;
      if rotation == 1 {
        var t := x;
        x := WIDTH - 1 - y;
        y := t;
      } else if rotation == 2 {
        x := WIDTH - 1 - x;
        y := HEIGHT - 1 - y;
      } else if rotation == 3 {
        var t := x;
        x := y;
        y := HEIGHT - 1 - t;
      }
    }

    /** getPixel rotates first and asks getRawPixel, which checks the bounds. Far
        off the canvas the rotation wraps, but never back onto it. */
    method GetPixel(x0: int16, y0: int16) returns (lit: bool)
      requires Ready()
      ensures lit == PixelAt(Shape(), buffer[..], x0, y0)
    {
      var x: int16, y: int16 := x0, y0;
      if rotation == 1 {
        var t := x;
        x := Narrow(WIDTH - 1 - y);
        y := t;
      } else if rotation == 2 {
        x := Narrow(WIDTH - 1 - x);
        y := Narrow(HEIGHT - 1 - y);
      } else if rotation == 3 {
        var t := x;
        x := y;
        y := Narrow(HEIGHT - 1 - t);
      }
      RotateBijective(Shape(), x0, y0, 0, 0);
      lit := GetRawPixel(x, y);
    }

    method GetRawPixel(x: int16, y: int16) returns (lit: bool)
      requires Ready()
      ensures lit == (0 <= x < WIDTH && 0 <= y < HEIGHT && Lit(Shape(), buffer[..], x, y))
    {
      if x < 0 || y < 0 || x >= WIDTH || y >= HEIGHT {
        return false;
      }
      ByteInside(Shape(), x, y);
      TimesIsProduct(y, (WIDTH + 7) / 8);
      MaskIsShift(x % 8);
      return buffer[(x / 8) + y * ((WIDTH + 7) / 8)] & ((0x80 as bv8) >> (x % 8)) != 0;
    }

    method DrawFastRawVLine(x: int16, y: int16, h: int16, color: uint16)
      requires Ready()
      requires 0 <= x < WIDTH && 0 <= y && 0 <= h && y + h <= HEIGHT
      modifies buffer
      ensures Painted(Shape(), old(buffer[..]), buffer[..], Rect(x, y, x + 1, y + h), Ink(color))
    {
      ghost var f, start := Shape(), buffer[..];
      var row_bytes: int16 := (WIDTH + 7) / 8;
      var p := (x / 8) + y * row_bytes;
      TimesIsProduct(y, row_bytes);
      MaskIsShift(x % 8);
      var mask: bv8 := 0x80 >> (x % 8);
      var i: int16 := 0;
      while i < h
        invariant 0 <= i <= h && p == ByteOf(f, x, y + i)
        invariant Painted(f, start, buffer[..], Rect(x, y, x + 1, y + i), Ink(color))
      {
        ghost var before := buffer[..];
        PaintPixel(f, before, x, y + i, Ink(color));
        buffer[p] := Put(buffer[p], mask, color);
        PaintedThen(f, start, before, buffer[..], Rect(x, y, x + 1, y + i), Rect(x, y + i, x + 1, y + i + 1),
                    Rect(x, y, x + 1, y + i + 1), Ink(color));
        p := p + row_bytes;
        i := i + 1;
      }
    }

    method DrawFastRawHLine(x: int16, y: int16, w: int16, color: uint16)
      requires Ready()
      requires 0 <= x < WIDTH && 0 <= y < HEIGHT && 0 <= w && x + w <= WIDTH
      modifies buffer
      ensures Painted(Shape(), old(buffer[..]), buffer[..], Rect(x, y, x + w, y + 1), Ink(color))
    {
      ghost var f, start := Shape(), buffer[..];
      var rowBytes: int16 := (WIDTH + 7) / 8;
      var p := (x / 8) + y * rowBytes;
      TimesIsProduct(y, rowBytes);
      var remaining: nat := w;
      ghost var c, at: int := x / 8, x;
      if x % 8 > 0 {
        var mask, used := BitMask(x % 8, remaining);
        remaining := remaining - used;
        PaintColumns(f, start, c, y, p, mask, x % 8, x % 8 + used, Ink(color));
        buffer[p] := Put(buffer[p], mask, color);
        p := p + 1;
        c := c + 1;
        at := x + used;
      }
      if remaining > 0 {
        ghost var before := buffer[..];
        DrawRest(c, y, p, remaining, color);
        PaintRight(f, start, before, buffer[..], y, x, at, x + w, Ink(color));
      }
    }

    /** Whole bytes, then the partial last byte. */
    method DrawRest(ghost c0: int, ghost y: nat, p0: int, bits: nat, color: uint16)
      requires Ready()
      requires 0 <= c0 && 0 <= y < HEIGHT && 0 < bits && 8 * c0 + bits <= WIDTH
      requires p0 == ByteOf(Shape(), 8 * c0, y)
      modifies buffer
      ensures Painted(Shape(), old(buffer[..]), buffer[..], Rect(8 * c0, y, 8 * c0 + bits, y + 1), Ink(color))
    {
      ghost var f, start := Shape(), buffer[..];
      var whole, last := bits / 8, bits % 8;
      var value: bv8 := if color > 0 then 0xFF else 0;
      var i := 0;
      while i < whole
        invariant 0 <= i <= whole
        invariant Painted(f, start, buffer[..], Rect(8 * c0, y, 8 * (c0 + i), y + 1), Ink(color))
      {
        ghost var before := buffer[..];
        PaintWhole(f, before, c0 + i, y, p0 + i, Ink(color));
        buffer[p0 + i] := value;
        PaintRight(f, start, before, buffer[..], y, 8 * c0, 8 * (c0 + i), 8 * (c0 + i) + 8, Ink(color));
        i := i + 1;
      }
      if last > 0 {
        ghost var before := buffer[..];
        var mask, used := BitMask(0, last);
        var p := p0 + whole;
        PaintColumns(f, before, c0 + whole, y, p, mask, 0, last, Ink(color));
        buffer[p] := Put(buffer[p], mask, color);
        PaintRight(f, start, before, buffer[..], y, 8 * c0, 8 * (c0 + whole), 8 * c0 + bits, Ink(color));
      }
    }

    // ------------------------------------------------------ the fast lines

    /** A negative length runs the other way; the fast line then leaves the very
        buffer that the loop of drawPixel leaves. */
    method DrawFastVLine(x: int16, y: int16, h: int16, color: uint16)
      requires Ready() && -0x8000 < h && -0x8000 <= y + h + 1
      modifies buffer
      ensures buffer[..] == DrawRun(Shape(), old(buffer[..]), x, if h < 0 then y + h + 1 else y, Abs(h), false, if color > 0 then 1 else 0)
    {
      ghost var f, start := Shape(), buffer[..];
      var drawn, y', h' := Clip(y, h, if rotation % 2 == 0 then HEIGHT else WIDTH);
      ghost var part := Rect(0, 0, 0, 0);
      if x >= 0 && x < (if rotation % 2 == 0 then WIDTH else HEIGHT) && drawn {
        RawVLine(x, y', h', color);
        part := Run(x, y', h', false);
      }
      ClippedVLine(f, x, y, h, drawn, y', h', part);
      OnlyTheRun(f, start, buffer[..], Run(x, RunStart(y, h), Abs(h), false), part, Ink(color));
      FastIsLoop(f, start, buffer[..], x, RunStart(y, h), Abs(h), false, Ink(color));
    }

    method DrawFastHLine(x: int16, y: int16, w: int16, color: uint16)
      requires Ready() && -0x8000 < w && -0x8000 <= x + w + 1
      modifies buffer
      ensures buffer[..] == DrawRun(Shape(), old(buffer[..]), if w < 0 then x + w + 1 else x, y, Abs(w), true, if color > 0 then 1 else 0)
    {
      ghost var f, start := Shape(), buffer[..];
      var drawn, x', w' := Clip(x, w, if rotation % 2 == 0 then WIDTH else HEIGHT);
      ghost var part := Rect(0, 0, 0, 0);
      if y >= 0 && y < (if rotation % 2 == 0 then HEIGHT else WIDTH) && drawn {
        RawHLine(x', y, w', color);
        part := Run(x', y, w', true);
      }
      ClippedHLine(f, x, y, w, drawn, x', w', part);
      OnlyTheRun(f, start, buffer[..], Run(RunStart(x, w), y, Abs(w), true), part, Ink(color));
      FastIsLoop(f, start, buffer[..], RunStart(x, w), y, Abs(w), true, Ink(color));
    }

    /** The rotation of a clipped vertical run. */
    method RawVLine(x0: int16, y0: int16, h: int16, color: uint16)
      requires Ready()
      requires 0 <= x0 < Width(Shape()) && 0 <= y0 && 0 <= h && 0 < y0 + h <= Height(Shape()) && y0 < Height(Shape())
      modifies buffer
      ensures Painted(Shape(), old(buffer[..]), buffer[..], Turn(Shape(), Run(x0, y0, h, false)), Ink(color))
    {
      ghost var line := Turn(Shape(), Run(x0, y0, h, false));
      var x, y := RotatePoint(x0, y0);
      if rotation == 0 {
        assert line == Rect(x, y, x + 1, y + h);
        DrawFastRawVLine(x, y, h, color);
      } else if rotation == 1 {
        x := x - (h - 1);
        assert line == Rect(x, y, x + h, y + 1);
        DrawFastRawHLine(x, y, h, color);
      } else if rotation == 2 {
        y := y - (h - 1);
        assert line == Rect(x, y, x + 1, y + h);
        DrawFastRawVLine(x, y, h, color);
      } else if rotation == 3 {
        assert line == Rect(x, y, x + h, y + 1);
        DrawFastRawHLine(x, y, h, color);
      }
    }

    /** The rotation of a clipped horizontal run. */
    method RawHLine(x0: int16, y0: int16, w: int16, color: uint16)
      requires Ready()
      requires 0 <= y0 < Height(Shape()) && 0 <= x0 && 0 <= w && 0 < x0 + w <= Width(Shape()) && x0 < Width(Shape())
      modifies buffer
      ensures Painted(Shape(), old(buffer[..]), buffer[..], Turn(Shape(), Run(x0, y0, w, true)), Ink(color))
    {
      ghost var line := Turn(Shape(), Run(x0, y0, w, true));
      var x, y := RotatePoint(x0, y0);
      if rotation == 0 {
        assert line == Rect(x, y, x + w, y + 1);
        DrawFastRawHLine(x, y, w, color);
      } else if rotation == 1 {
        assert line == Rect(x, y, x + 1, y + w);
        DrawFastRawVLine(x, y, w, color);
      } else if rotation == 2 {
        x := x - (w - 1);
        assert line == Rect(x, y, x + w, y + 1);
        DrawFastRawHLine(x, y, w, color);
      } else if rotation == 3 {
        y := y - (w - 1);
        assert line == Rect(x, y, x + 1, y + w);
        DrawFastRawVLine(x, y, w, color);
      }
    }
  }

  /** The first pixel of a run of n from a; n < 0 runs up to a. */
  function RunStart(a: int, n: int): int {
    if n < 0 then a + n + 1 else a
  }

  predicate Spans(a: int, n: int, p: int) {
    a <= p < a + n
  }

  /** The clipping both fast lines do along the run. */
  method Clip(a: int16, n: int16, size: int16) returns (drawn: bool, a': int16, n': int16)
    requires 0 < size && -0x8000 < n && -0x8000 <= a + n + 1
    ensures drawn ==> 0 <= a' < size && 0 <= n' && 0 < a' + n' <= size
    ensures forall p :: (0 <= p < size && Spans(RunStart(a, n), Abs(n), p)) <==> (drawn && Spans(a', n', p))
  {
    a', n' := a, n;
    if n' < 0 {
      n' := -n';
      a' := a' - (n' - 1);
      if a' < 0 {
        n' := n' + a';
        a' := 0;
      }
    }
    drawn := !(a' >= size || a' + n' - 1 < 0);
    if drawn {
      if a' < 0 {
        n' := n' + a';
        a' := 0;
      }
      if a' + n' > size {
        n' := size - a';
      }
    }
  }

  lemma ClippedVLine(f: Frame, x: int, y: int, h: int, drawn: bool, y': int, h': int, part: Rect)
    requires forall p :: (0 <= p < Height(f) && Spans(RunStart(y, h), Abs(h), p)) <==> (drawn && Spans(y', h', p))
    requires part == if 0 <= x < Width(f) && drawn then Run(x, y', h', false) else Rect(0, 0, 0, 0)
    ensures forall p, q :: In(part, p, q) <==> OnScreen(f, p, q) && In(Run(x, RunStart(y, h), Abs(h), false), p, q)
  {
    forall p, q
      ensures In(part, p, q) <==> OnScreen(f, p, q) && In(Run(x, RunStart(y, h), Abs(h), false), p, q)
    {
      assert (0 <= q < Height(f) && Spans(RunStart(y, h), Abs(h), q)) <==> (drawn && Spans(y', h', q));
    }
  }

  lemma ClippedHLine(f: Frame, x: int, y: int, w: int, drawn: bool, x': int, w': int, part: Rect)
    requires forall p :: (0 <= p < Width(f) && Spans(RunStart(x, w), Abs(w), p)) <==> (drawn && Spans(x', w', p))
    requires part == if 0 <= y < Height(f) && drawn then Run(x', y, w', true) else Rect(0, 0, 0, 0)
    ensures forall p, q :: In(part, p, q) <==> OnScreen(f, p, q) && In(Run(RunStart(x, w), y, Abs(w), true), p, q)
  {
    forall p, q
      ensures In(part, p, q) <==> OnScreen(f, p, q) && In(Run(RunStart(x, w), y, Abs(w), true), p, q)
    {
      assert (0 <= p < Width(f) && Spans(RunStart(x, w), Abs(w), p)) <==> (drawn && Spans(x', w', p));
    }
  }

  lemma InTurn(f: Frame, a: Rect, u: int, v: int)
    requires Valid(f)
    ensures var (x, y) := Unrotate(f, u, v);
      && (In(Turn(f, a), u, v) <==> In(a, x, y))
      && (OnScreen(f, x, y) <==> 0 <= u < f.W && 0 <= v < f.H)
  {
  }

  /** Painting the part of a run that is on the screen is painting the run. */
  lemma OnlyTheRun(f: Frame, buf: seq<bv8>, buf': seq<bv8>, run: Rect, part: Rect, color: int)
    requires Valid(f) && Painted(f, buf, buf', Turn(f, part), color)
    requires forall x, y :: In(part, x, y) <==> OnScreen(f, x, y) && In(run, x, y)
    ensures Painted(f, buf, buf', OnBuffer(f, run), color)
  {
    forall u, v | InPad(f, u, v)
      ensures In(Turn(f, part), u, v) <==> In(OnBuffer(f, run), u, v)
    {
      var (x, y) := Unrotate(f, u, v);
      InOnBuffer(f, run, u, v);
      InTurn(f, part, u, v);
    }
  }
}
