/** Adafruit_SSD1306: the packed frame buffer of the OLED display. */
module Ssd1306 {
  import opened CInts
  import opened Bytes
  import opened Raster

  /** Coordinates far enough from the ends of int16_t for the rotations and the
      clipping, which add or subtract a screen size. */
  predicate Tame(a: int) {
    -0x7D00 <= a <= 0x7D00
  }

  /** A byte holds eight rows of a column; under a mask, rows a to b - 1 of them. */
  lemma PaintRows(f: Frame, buf: seq<bv8>, x: int, page: nat, i: int, mask: bv8, a: nat, b: nat, color: int)
    requires i == x + Times(page, f.W)
    requires f.layout.Pages? && |buf| == Size(f) && 0 <= color <= 2
    requires 0 <= x < f.W && 0 <= 8 * page < f.H && a <= b <= 8
    requires forall k :: 0 <= k < 8 ==> (Bit(mask, k) <==> a <= k < b)
    ensures 0 <= i < |buf|
    ensures Painted(f, buf, buf[i := Stamp(buf[i], mask, color)],
                    Rect(x, 8 * page + a, x + 1, 8 * page + b), color)
  {
    var area := Rect(x, 8 * page + a, x + 1, 8 * page + b);
    ByteInside(f, x, 8 * page);
    forall p, q | InPad(f, p, q)
      ensures In(area, p, q) <==> ByteOf(f, p, q) == i && Bit(mask, BitOf(f, p, q))
    {
      if ByteOf(f, p, q) == ByteOf(f, x, 8 * page) {
        SamePlace(f, p, q, x, 8 * page);
      }
    }
    PaintByte(f, buf, i, mask, area, color);
  }

  /** The two lookup tables of drawFastVLineInternal. */
  const PREMASK: seq<bv8> := [0x00, 0x80, 0xC0, 0xE0, 0xF0, 0xF8, 0xFC, 0xFE]
  const POSTMASK: seq<bv8> := [0x00, 0x01, 0x03, 0x07, 0x0F, 0x1F, 0x3F, 0x7F]

  lemma TableBits(n: nat, k: nat)
    requires n < 8 && k < 8
    ensures Bit(PREMASK[n], k) <==> 8 - n <= k
    ensures Bit(POSTMASK[n], k) <==> k < n
  {
  }

  /** 0xFF >> n keeps the low 8 - n bits. */
  lemma ShiftBits(n: nat, k: nat)
    requires n < 8 && k < 8
    ensures Bit((0xFF as bv8) >> n, k) <==> k < 8 - n
  {
  }

  lemma PaintWhole(f: Frame, buf: seq<bv8>, x: int, page: nat, i: int, color: int)
    requires i == x + Times(page, f.W)
    requires f.layout.Pages? && |buf| == Size(f) && 0 <= color <= 2
    requires 0 <= x < f.W && 0 <= 8 * page < f.H
    ensures 0 <= i < |buf|
    ensures Painted(f, buf, buf[i := Stamp(buf[i], 0xFF, color)],
                    Rect(x, 8 * page, x + 1, 8 * page + 8), color)
  {
    forall k | 0 <= k < 8
      ensures Bit(0xFF, k)
    {
      AllBits(k);
    }
    PaintRows(f, buf, x, page, i, 0xFF, 0, 8, color);
  }

  /** Rows painted so far, and the next ones below them. */
  lemma PaintBelow(f: Frame, p: seq<bv8>, q: seq<bv8>, r: seq<bv8>, x: int, y: int, m: int, z: int, color: int)
    requires y <= m <= z
    requires Painted(f, p, q, Rect(x, y, x + 1, m), color)
    requires Painted(f, q, r, Rect(x, m, x + 1, z), color)
    ensures Painted(f, p, r, Rect(x, y, x + 1, z), color)
  {
    PaintedThen(f, p, q, r, Rect(x, y, x + 1, m), Rect(x, m, x + 1, z), Rect(x, y, x + 1, z), color);
  }

  class Ssd1306 {
    const WIDTH: uint8
    const HEIGHT: uint8
    var rotation: uint8
    const buffer: array<bv8>

    ghost function Shape(): Frame
      reads this
    {
      Frame(Pages, WIDTH, HEIGHT, rotation)
    }

    ghost predicate Ready()
      reads this
    {
      Valid(Shape()) && buffer.Length == Size(Shape())
    }

    constructor (w: uint8, h: uint8)
      ensures Ready() && fresh(buffer) && WIDTH == w && HEIGHT == h && rotation == 0 && buffer.Length == w * ((h + 7) / 8)
      ensures forall i :: 0 <= i < buffer.Length ==> buffer[i] == 0
    {
      WIDTH, HEIGHT, rotation := w, h, 0;
      buffer := new bv8[w * ((h + 7) / 8)](_ => 0);
    }

    method SetRotation(r: uint8)
      requires Ready()
      modifies this`rotation
      ensures Ready() && rotation == r % 4
    {
      rotation := r % 4;
    }

    /** The switch on the rotation in drawPixel and getPixel. */
    method RotatePoint(x0: int16, y0: int16) returns (x: int16, y: int16)
      requires Ready() && OnScreen(Shape(), x0, y0)
      ensures (x, y) == Rotate(Shape(), x0, y0) && 0 <= x < WIDTH && 0 <= y < HEIGHT
    {
      x, y := x0, y0;
      if rotation == 1 {
        x, y := y, x;
        x := WIDTH - x - 1;
      } else if rotation == 2 {
        x := WIDTH - x - 1;
        y := HEIGHT - y - 1;
      } else if rotation == 3 {
        x, y := y, x;
        y := HEIGHT - y - 1;
      }
    }

    method DrawPixel(x0: int16, y0: int16, color: uint16)
      requires Ready()
      modifies buffer
      ensures buffer[..] == Raster.DrawPixel(Shape(), old(buffer[..]), x0, y0, color)
    {
      var w := if rotation % 2 == 0 then WIDTH else HEIGHT;
      var h := if rotation % 2 == 0 then HEIGHT else WIDTH;
      if x0 >= 0 && x0 < w && y0 >= 0 && y0 < h {
        var x, y := RotatePoint(x0, y0);
        ByteInside(Shape(), x, y);
        TimesIsProduct(y / 8, WIDTH);
        var i := x + (y / 8) * WIDTH;
        assert i == ByteOf(Shape(), x, y);
        MaskIsShift(y % 8);
        buffer[i] := Stamp(buffer[i], (1 as bv8) << (y % 8), color);
      }
    }

    method GetPixel(x0: int16, y0: int16) returns (lit: bool)
      requires Ready()
      ensures lit == PixelAt(Shape(), buffer[..], x0, y0)
    {
      var w := if rotation % 2 == 0 then WIDTH else HEIGHT;
      var h := if rotation % 2 == 0 then HEIGHT else WIDTH;
      if x0 >= 0 && x0 < w && y0 >= 0 && y0 < h {
        var x, y := RotatePoint(x0, y0);
        TimesIsProduct(y / 8, WIDTH);
        var i := x + (y / 8) * WIDTH;
        PixelIsBit(Shape(), buffer[..], x0, y0, i, y % 8);
        MaskIsShift(y % 8);
        return buffer[i] & ((1 as bv8) << (y % 8)) != 0;
      }
      return false;
    }

    method DrawFastVLineInternal(x: int16, y0: int16, h0: int16, color: uint16)
      requires Ready() && color <= 2 && -0x8000 <= y0 + h0
      modifies buffer
      ensures Painted(Shape(), old(buffer[..]), buffer[..], Cut(Rect(x, y0, x + 1, y0 + h0), WIDTH, HEIGHT), color)
    {
      if x >= 0 && x < WIDTH {
        var y': int16, h': int16 := y0, h0;
        if y' < 0 {
          h' := h' + y';
          y' := 0;
        }
        if y' + h' > HEIGHT {
          h' := HEIGHT - y';
        }
        if h' > 0 {
          DrawColumn(x, y', h', color);
        }
      }
    }

    /** The byte-wise part, once the run is clipped: partial head, whole bytes,
        partial tail. The narrowing to uint8_t loses nothing. */
    method DrawColumn(x: uint8, y: uint8, h0: uint8, color: uint16)
      requires Ready() && color <= 2
      requires x < WIDTH && h0 > 0 && y + h0 <= HEIGHT
      modifies buffer
      ensures Painted(Shape(), old(buffer[..]), buffer[..], Rect(x, y, x + 1, y + h0), color)
    {
      ghost var f, start, page: nat := Shape(), buffer[..], y / 8;
      var h := h0;
      var p := (y / 8) * WIDTH + x;
      TimesIsProduct(page, WIDTH);
      var mod: uint8 := y % 8;
      if mod != 0 {
        mod := 8 - mod;
        DrawHead(x, y, h, mod, p, color);
        p := p + WIDTH;
        page := page + 1;
      }
      if h >= mod {
        h := h - mod;
        ghost var middle := buffer[..];
        assert Painted(f, start, middle, Rect(x, y, x + 1, 8 * page), color);
        DrawBody(x, page, h, p, color);
        PaintBelow(f, start, middle, buffer[..], x, y, 8 * page, y + h0, color);
      }
    }

    method DrawHead(ghost x: uint8, ghost y: uint8, h: uint8, mod: uint8, p: nat, color: uint16)
      requires Ready() && color <= 2
      requires x < WIDTH && h > 0 && y + h <= HEIGHT
      requires 0 < mod < 8 && mod == 8 - y % 8 && p == x + Times(y / 8, WIDTH)
      modifies buffer
      ensures Painted(Shape(), old(buffer[..]), buffer[..], Rect(x, y, x + 1, y + Min(h, mod)), color)
    {
      var mask := PREMASK[mod];
      if h < mod {
        mask := mask & ((0xFF as bv8) >> (mod - h));
      }
      forall k | 0 <= k < 8
        ensures Bit(mask, k) <==> y % 8 <= k < y % 8 + Min(h, mod)
      {
        TableBits(mod, k);
        if h < mod {
          ShiftBits(mod - h, k);
          AndBit(PREMASK[mod], (0xFF as bv8) >> (mod - h), k);
        }
      }
      PaintRows(Shape(), buffer[..], x, y / 8, p, mask, y % 8, y % 8 + Min(h, mod), color);
      buffer[p] := Stamp(buffer[p], mask, color);
    }

    method DrawBody(ghost x: uint8, ghost page0: nat, h0: uint8, p0: nat, color: uint16)
      requires Ready() && color <= 2
      requires x < WIDTH && 8 * page0 + h0 <= HEIGHT
      requires p0 == x + Times(page0, WIDTH)
      modifies buffer
      ensures Painted(Shape(), old(buffer[..]), buffer[..], Rect(x, 8 * page0, x + 1, 8 * page0 + h0), color)
    {
      ghost var f, start, page := Shape(), buffer[..], page0;
      var h: uint8, p: nat := h0, p0;
      var val: bv8 := if color != BLACK then 0xFF else 0;
      while h >= 8
        invariant h <= h0 && 8 * page + h == 8 * page0 + h0
        invariant p == x + Times(page, WIDTH)
        invariant Painted(f, start, buffer[..], Rect(x, 8 * page0, x + 1, 8 * page), color)
      {
        ghost var before := buffer[..];
        DrawWhole(x, page, p, val, color);
        PaintBelow(f, start, before, buffer[..], x, 8 * page0, 8 * page, 8 * page + 8, color);
        p := p + WIDTH;
        h := h - 8;
        page := page + 1;
      }
      if h != 0 {
        ghost var before := buffer[..];
        DrawTail(x, page, h, p, color);
        PaintBelow(f, start, before, buffer[..], x, 8 * page0, 8 * page, 8 * page + h, color);
      }
    }

    /** One whole byte: eight rows of the column. */
    method DrawWhole(ghost x: uint8, ghost page: nat, p: nat, val: bv8, color: uint16)
      requires Ready() && color <= 2
      requires x < WIDTH && 8 * page + 8 <= HEIGHT && p == x + Times(page, WIDTH)
      requires val == if color != BLACK then 0xFF else 0
      modifies buffer
      ensures Painted(Shape(), old(buffer[..]), buffer[..], Rect(x, 8 * page, x + 1, 8 * page + 8), color)
    {
      PaintWhole(Shape(), buffer[..], x, page, p, color);
      WholeByte(buffer[p], color);
      buffer[p] := if color == INVERSE then buffer[p] ^ 0xFF else val;
    }

    method DrawTail(ghost x: uint8, ghost page: nat, h: uint8, p: nat, color: uint16)
      requires Ready() && color <= 2
      requires x < WIDTH && 0 < h < 8 && 8 * page + h <= HEIGHT
      requires p == x + Times(page, WIDTH)
      modifies buffer
      ensures Painted(Shape(), old(buffer[..]), buffer[..], Rect(x, 8 * page, x + 1, 8 * page + h), color)
    {
      var mod := h % 8;
      var mask := POSTMASK[mod];
      forall k | 0 <= k < 8
        ensures Bit(mask, k) <==> k < h
      {
        TableBits(h, k);
      }
      PaintRows(Shape(), buffer[..], x, page, p, mask, 0, h, color);
      buffer[p] := Stamp(buffer[p], mask, color);
    }

    method DrawFastHLineInternal(x0: int16, y: int16, w0: int16, color: uint16)
      requires Ready() && color <= 2 && -0x8000 <= x0 + w0
      modifies buffer
      ensures Painted(Shape(), old(buffer[..]), buffer[..], Cut(Rect(x0, y, x0 + w0, y + 1), WIDTH, HEIGHT), color)
    {
      if y >= 0 && y < HEIGHT {
        var x: int16, w: int16 := x0, w0;
        if x < 0 {
          w := w + x;
          x := 0;
        }
        if x + w > WIDTH {
          w := WIDTH - x;
        }
        if w > 0 {
          DrawRow(x, y, w, color);
        }
      }
    }

    /** The three loops of the source, one a colour, differ only in the stamp. */
    method DrawRow(x: uint8, y: uint8, w0: uint8, color: uint16)
      requires Ready() && color <= 2
      requires x + w0 <= WIDTH && y < HEIGHT && w0 > 0
      modifies buffer
      ensures Painted(Shape(), old(buffer[..]), buffer[..], Rect(x, y, x + w0, y + 1), color)
    {
      ghost var f, start := Shape(), buffer[..];
      var p, mask: bv8, w := (y / 8) * WIDTH + x, 1 << (y % 8), w0;
      MaskIsShift(y % 8);
      TimesIsProduct(y / 8, WIDTH);
      ghost var u: nat := x;
      while w != 0
        invariant x <= u && u + w == x + w0 && p == ByteOf(f, u, y)
        invariant Painted(f, start, buffer[..], Rect(x, y, u, y + 1), color)
        decreases w
      {
        ghost var before := buffer[..];
        PaintPixel(f, before, u, y, color);
        buffer[p] := Stamp(buffer[p], mask, color);
        PaintedThen(f, start, before, buffer[..], Rect(x, y, u, y + 1), Rect(u, y, u + 1, y + 1),
                    Rect(x, y, u + 1, y + 1), color);
        p := p + 1;
        w := w - 1;
        u := u + 1;
      }
    }

    // ------------------------------------------------- the rotated fast lines

    /** The fast line leaves the very buffer that the loop of drawPixel leaves. */
    method DrawFastHLine(x0: int16, y0: int16, w: int16, color: uint16)
      requires Ready() && color <= 2
      requires Tame(x0) && Tame(y0) && Tame(w) && Tame(x0 + w)
      modifies buffer
      ensures buffer[..] == DrawRun(Shape(), old(buffer[..]), x0, y0, w, true, color)
    {
      var bSwap, x, y := RotateHLine(x0, y0, w);
      if bSwap {
        DrawFastVLineInternal(x, y, w, color);
      } else {
        DrawFastHLineInternal(x, y, w, color);
      }
      FastIsLoop(Shape(), old(buffer[..]), buffer[..], x0, y0, w, true, color);
    }

    method RotateHLine(x0: int16, y0: int16, w: int16) returns (bSwap: bool, x: int16, y: int16)
      requires Ready()
      requires Tame(x0) && Tame(y0) && Tame(w) && Tame(x0 + w)
      ensures if bSwap then Turn(Shape(), Run(x0, y0, w, true)) == Rect(x, y, x + 1, y + w) && -0x8000 <= y + w
              else Turn(Shape(), Run(x0, y0, w, true)) == Rect(x, y, x + w, y + 1) && -0x8000 <= x + w
    {
      bSwap, x, y := false, x0, y0;
      if rotation == 1 {
        bSwap := true;
        x, y := y, x;
        x := WIDTH - x - 1;
      } else if rotation == 2 {
        x := WIDTH - x - 1;
        y := HEIGHT - y - 1;
        x := x - (w - 1);
      } else if rotation == 3 {
        bSwap := true;
        x, y := y, x;
        y := HEIGHT - y - 1;
        y := y - (w - 1);
      }
    }

    method DrawFastVLine(x0: int16, y0: int16, h: int16, color: uint16)
      requires Ready() && color <= 2
      requires Tame(x0) && Tame(y0) && Tame(h) && Tame(y0 + h)
      modifies buffer
      ensures buffer[..] == DrawRun(Shape(), old(buffer[..]), x0, y0, h, false, color)
    {
      var bSwap, x, y := RotateVLine(x0, y0, h);
      if bSwap {
        DrawFastHLineInternal(x, y, h, color);
      } else {
        DrawFastVLineInternal(x, y, h, color);
      }
      FastIsLoop(Shape(), old(buffer[..]), buffer[..], x0, y0, h, false, color);
    }

    method RotateVLine(x0: int16, y0: int16, h: int16) returns (bSwap: bool, x: int16, y: int16)
      requires Ready()
      requires Tame(x0) && Tame(y0) && Tame(h) && Tame(y0 + h)
      ensures if bSwap then Turn(Shape(), Run(x0, y0, h, false)) == Rect(x, y, x + h, y + 1) && -0x8000 <= x + h
              else Turn(Shape(), Run(x0, y0, h, false)) == Rect(x, y, x + 1, y + h) && -0x8000 <= y + h
    {
      bSwap, x, y := false, x0, y0;
      if rotation == 1 {
        bSwap := true;
        x, y := y, x;
        x := WIDTH - x - 1;
        x := x - (h - 1);
      } else if rotation == 2 {
        x := WIDTH - x - 1;
        y := HEIGHT - y - 1;
        y := y - (h - 1);
      } else if rotation == 3 {
        bSwap := true;
        x, y := y, x;
        y := HEIGHT - y - 1;
      }
    }
  }
}
