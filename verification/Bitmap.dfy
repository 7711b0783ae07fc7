/** Adafruit_GFX::drawBitmap with two colours, onto a GFXcanvas1. */
module Bitmap {
  import opened CInts
  import opened Bytes
  import opened Raster
  import Canvas1

  /** A bitmap in memory has the layout of an unrotated canvas. */
  function Image(w: nat, h: nat): Frame {
    Frame(Rows, w, h, 0)
  }

  /** The colour of pixel (i, j) of a bitmap, read directly. */
  function ColorAt(w: nat, h: nat, bits: seq<bv8>, i: int, j: int, color: int, bg: int): int
    requires |bits| == Size(Image(w, h)) && 0 <= i < w && 0 <= j < h
  {
    if Lit(Image(w, h), bits, i, j) then color else bg
  }

  /** One bitmap drawn at (x, y): its first `rows` rows, and `cols` of the next. */
  datatype Blit = Blit(w: nat, h: nat, bits: seq<bv8>, x: int, y: int, color: int, bg: int)

  predicate Whole(b: Blit) {
    |b.bits| == Size(Image(b.w, b.h))
  }

  predicate Reached(b: Blit, rows: int, cols: int, i: int, j: int) {
    0 <= i < b.w && 0 <= j < b.h && (j < rows || (j == rows && i < cols))
  }

  predicate BlitAt(f: Frame, old': seq<bv8>, new': seq<bv8>, b: Blit, rows: int, cols: int, u: int, v: int)
    requires Valid(f) && Whole(b) && |old'| == |new'| == Size(f) && InPad(f, u, v)
  {
    var (x, y) := Unrotate(f, u, v);
    Lit(f, new', u, v) ==
    if u < f.W && v < f.H && Reached(b, rows, cols, x - b.x, y - b.y)
    then ColorAt(b.w, b.h, b.bits, x - b.x, y - b.y, b.color, b.bg) != 0
    else Lit(f, old', u, v)
  }

  /** What is on the screen is the bitmap, clipped, and nothing else changes. */
  ghost predicate Blitted(f: Frame, old': seq<bv8>, new': seq<bv8>, b: Blit, rows: int, cols: int)
    requires Valid(f) && Whole(b)
  {
    && |old'| == |new'| == Size(f)
    && forall u, v :: InPad(f, u, v) ==> BlitAt(f, old', new', b, rows, cols, u, v)
  }

  /** One more pixel of the bitmap. */
  lemma BlitPixel(f: Frame, p: seq<bv8>, q: seq<bv8>, r: seq<bv8>, b: Blit, i: nat, j: nat, ink: int,
                  x: int, y: int)
    requires Valid(f) && Whole(b) && i < b.w && j < b.h && x == b.x + i && y == b.y + j
    requires Blitted(f, p, q, b, j, i)
    requires ink == Canvas1.Ink(ColorAt(b.w, b.h, b.bits, i, j, b.color, b.bg))
    requires Painted(f, q, r, OnBuffer(f, Rect(x, y, x + 1, y + 1)), ink)
    ensures Blitted(f, p, r, b, j, i + 1)
  {
    forall u, v | InPad(f, u, v)
      ensures BlitAt(f, p, r, b, j, i + 1, u, v)
    {
      InOnBuffer(f, Rect(x, y, x + 1, y + 1), u, v);
      BlitPixelAt(f, p, q, r, b, i, j, ink, u, v);
    }
  }

  lemma BlitPixelAt(f: Frame, p: seq<bv8>, q: seq<bv8>, r: seq<bv8>, b: Blit, i: nat, j: nat, ink: int, u: int, v: int)
    requires Valid(f) && Whole(b) && i < b.w && j < b.h && InPad(f, u, v) && |p| == |q| == |r| == Size(f)
    requires ink == Canvas1.Ink(ColorAt(b.w, b.h, b.bits, i, j, b.color, b.bg))
    requires BlitAt(f, p, q, b, j, i, u, v)
    requires var (x, y) := Unrotate(f, u, v);
      Lit(f, r, u, v) == if u < f.W && v < f.H && x == b.x + i && y == b.y + j then Paint(ink, Lit(f, q, u, v)) else Lit(f, q, u, v)
    ensures BlitAt(f, p, r, b, j, i + 1, u, v)
  {
  }

  method DrawBitmap(d: Canvas1.GFXcanvas1, x: int16, y0: int16, bitmap: array<bv8>, w: int16, h: int16,
                    color: uint16, bg: uint16)
    requires d.Ready() && d.buffer != bitmap
    requires 0 <= w && 0 <= h && x + w < 0x8000 && y0 + h < 0x8000
    requires bitmap.Length == Size(Image(w, h))
    modifies d.buffer
    ensures Blitted(d.Shape(), old(d.buffer[..]), d.buffer[..], Blit(w, h, bitmap[..], x, y0, color, bg), h, 0)
  {
    ghost var f, start, b := d.Shape(), d.buffer[..], Blit(w, h, bitmap[..], x, y0, color, bg);
    var byteWidth: int16 := (w + 7) / 8;
    var byte: bv8 := 0;
    var y: int16 := y0;
    var j: int16 := 0;
    while j < h
      invariant 0 <= j <= h && y == y0 + j && bitmap[..] == b.bits
      invariant Blitted(f, start, d.buffer[..], b, j, 0)
    {
      byte := DrawBitmapRow(d, b, start, x, y, bitmap, byteWidth, j, w, byte, color, bg);
      NextRow(f, start, d.buffer[..], b, j);
      j := j + 1;
      y := y + 1;
    }
  }

  method DrawBitmapRow(d: Canvas1.GFXcanvas1, ghost b: Blit, ghost start: seq<bv8>, x: int16, y: int16,
                       bitmap: array<bv8>, byteWidth: int16, j: int16, w: int16, byte0: bv8,
                       color: uint16, bg: uint16) returns (byte: bv8)
    requires d.Ready() && d.buffer != bitmap && 0 <= w && Whole(b)
    requires b == Blit(w, b.h, bitmap[..], x, y - j, color, bg) && 0 <= j < b.h
    requires byteWidth == (w + 7) / 8 && x + w < 0x8000
    requires Blitted(d.Shape(), start, d.buffer[..], b, j, 0)
    modifies d.buffer
    ensures Blitted(d.Shape(), start, d.buffer[..], b, j, w)
  {
    ghost var f := d.Shape();
    byte := byte0;
    var i: int16 := 0;
    while i < w
      invariant 0 <= i <= w && bitmap[..] == b.bits
      invariant i % 8 > 0 ==> Reading(b, i - 1, j, byte)
      invariant Blitted(f, start, d.buffer[..], b, j, i)
    {
      byte := CopyBit(d, b, start, x, y, bitmap, byteWidth, i, j, byte, color, bg);
      i := i + 1;
    }
  }

  /** The body of the inner loop. */
  method CopyBit(d: Canvas1.GFXcanvas1, ghost b: Blit, ghost start: seq<bv8>, x: int16, y: int16, bitmap: array<bv8>,
                 byteWidth: int16, i: int16, j: int16, byte0: bv8, color: uint16, bg: uint16) returns (byte: bv8)
    requires d.Ready() && d.buffer != bitmap && Whole(b) && bitmap[..] == b.bits && 0 <= i < b.w && 0 <= j < b.h
    requires b.x == x && b.y == y - j && b.color == color && b.bg == bg
    requires byteWidth == (b.w + 7) / 8 && x + b.w < 0x8000
    requires i % 8 > 0 ==> Reading(b, i - 1, j, byte0)
    requires Blitted(d.Shape(), start, d.buffer[..], b, j, i)
    modifies d.buffer
    ensures Reading(b, i, j, byte) && Blitted(d.Shape(), start, d.buffer[..], b, j, i + 1)
  {
    byte := NextBit(b, bitmap, byteWidth, i, j, byte0);
    WriteBit(d, b, start, x + i, y, i, j, if byte & 0x80 != 0 then color else bg);
  }

  method WriteBit(d: Canvas1.GFXcanvas1, ghost b: Blit, ghost start: seq<bv8>, x: int16, y: int16,
                  ghost i: nat, ghost j: nat, ink: uint16)
    requires d.Ready() && Whole(b) && i < b.w && j < b.h
    requires x == b.x + i && y == b.y + j && ink == ColorAt(b.w, b.h, b.bits, i, j, b.color, b.bg)
    requires Blitted(d.Shape(), start, d.buffer[..], b, j, i)
    modifies d.buffer
    ensures Blitted(d.Shape(), start, d.buffer[..], b, j, i + 1)
  {
    ghost var before := d.buffer[..];
    d.DrawPixel(x, y, ink);
    DrawPixelPaints(d.Shape(), before, x, y, Canvas1.Ink(ink));
    BlitPixel(d.Shape(), start, before, d.buffer[..], b, i, j, Canvas1.Ink(ink), x, y);
  }

  /** The shifted byte shows pixel (i, j) in its top bit. */
  predicate Reading(b: Blit, i: int, j: int, byte: bv8)
    requires Whole(b) && 0 <= i < b.w && 0 <= j < b.h
  {
    ByteInside(Image(b.w, b.h), i, j);
    Shifted(byte, b.bits[ByteOf(Image(b.w, b.h), i, j)], i % 8)
  }

  /** The bit reader: all its reads are inside the bitmap, and its top bit is the
      pixel that direct indexing finds. */
  method NextBit(ghost b: Blit, bitmap: array<bv8>, byteWidth: int16, i: int16, j: int16, byte0: bv8) returns (byte: bv8)
    requires Whole(b) && bitmap[..] == b.bits && 0 <= i < b.w && 0 <= j < b.h && byteWidth == (b.w + 7) / 8
    requires i % 8 > 0 ==> Reading(b, i - 1, j, byte0)
    ensures Reading(b, i, j, byte)
    ensures (byte & 0x80 != 0) == Lit(Image(b.w, b.h), b.bits, i, j)
  {
    ghost var g := Image(b.w, b.h);
    TimesIsProduct(j, byteWidth);
    ByteInside(g, i, j);
    byte := byte0;
    if i % 8 != 0 {
      assert (i - 1) / 8 == i / 8 && (i - 1) % 8 == i % 8 - 1;
      assert ByteOf(g, i - 1, j) == ByteOf(g, i, j);
      ShiftOn(byte, b.bits[ByteOf(g, i, j)], i % 8 - 1, byte << 1);
      byte := byte << 1;
    } else {
      byte := bitmap[j * byteWidth + i / 8];
    }
    assert Bit(byte, 7) == Lit(g, b.bits, i, j);
  }

  /** The first row of the next line of the bitmap is where this one ends. */
  lemma NextRow(f: Frame, p: seq<bv8>, q: seq<bv8>, b: Blit, j: nat)
    requires Valid(f) && Whole(b)
    requires Blitted(f, p, q, b, j, b.w)
    ensures Blitted(f, p, q, b, j + 1, 0)
  {
    forall u, v | InPad(f, u, v)
      ensures BlitAt(f, p, q, b, j + 1, 0, u, v)
    {
      assert BlitAt(f, p, q, b, j, b.w, u, v);
    }
  }

  /** Drawing a canvas's buffer at (0, 0) on an unrotated canvas of its size, in
      colours 1 and 0, reproduces every pixel. */
  lemma BlitRoundTrip(f: Frame, old': seq<bv8>, new': seq<bv8>, source: seq<bv8>, color: int, bg: int)
    requires f == Image(f.W, f.H) && |source| == Size(f)
    requires color != 0 && bg == 0
    requires Blitted(f, old', new', Blit(f.W, f.H, source, 0, 0, color, bg), f.H, 0)
    ensures forall x, y :: OnScreen(f, x, y) ==> InPad(f, x, y) && Lit(f, new', x, y) == Lit(f, source, x, y)
  {
    forall x, y | OnScreen(f, x, y)
      ensures InPad(f, x, y) && Lit(f, new', x, y) == Lit(f, source, x, y)
    {
      assert BlitAt(f, old', new', Blit(f.W, f.H, source, 0, 0, color, bg), f.H, 0, x, y);
    }
  }
}
