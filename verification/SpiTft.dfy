/** Adafruit_SPITFT on a SAMD board with DMA: the fill cache, the descriptor
    list, and the clipped drawing operations on top of them. */
module SpiTft {
  import opened CInts
  import opened Line
  import opened Panel
  import opened Dma

  const MAX_TRANSFER := 32767

  /** Runs whose rounding up to descriptors stays in 32 bits. */
  const MAX_RUN := 0x7FFF_FFFF

  class SpiTft {
    const WIDTH: int16
    const HEIGHT: int16
    const maxFillLen: uint16
    const pixelBuf: array<uint16>
    const descriptor: array<Descriptor>
    var width: int16
    var height: int16
    var lastFillColor: uint16
    var lastFillLen: uint32
    var onePixelBuf: uint8
    var panel: Panel

    /** The fill cache is what it claims to be. */
    ghost predicate Cached()
      reads this`lastFillColor, this`lastFillLen, pixelBuf
    {
      && lastFillLen % 2 == 0 && lastFillLen <= pixelBuf.Length
      && forall k :: 0 <= k < lastFillLen ==> pixelBuf[k] == Swap(lastFillColor)
    }

    /** The two scanlines of pixels initSPI allocated, */
    ghost predicate Buffered() {
      0 < maxFillLen <= MAX_TRANSFER && maxFillLen % 4 == 0 && pixelBuf.Length == maxFillLen
      && pixelBuf as object != descriptor
    }

    /** and the descriptors for them. */
    ghost predicate Sized() {
      && Buffered() && 0 < WIDTH && 0 < HEIGHT
      && maxFillLen == 2 * (Max(WIDTH, HEIGHT) + Max(WIDTH, HEIGHT) % 2)
      && 0 < descriptor.Length == CeilDiv(Area(HEIGHT, WIDTH), maxFillLen)
    }

    /** The screen as it is turned. */
    ghost predicate Turned()
      reads this`width, this`height
    {
      (width == WIDTH && height == HEIGHT) || (width == HEIGHT && height == WIDTH)
    }

    ghost predicate Ready()
      reads this`width, this`height, this`lastFillColor, this`lastFillLen, pixelBuf
    {
      Sized() && Turned() && Cached()
    }

    /** `(WIDTH * HEIGHT + (maxFillLen - 1)) / maxFillLen`. */
    static method DescriptorsFor(w: int16, h: int16, most: uint16) returns (n: nat)
      requires 0 <= w && 0 <= h && most > 0
      ensures n == CeilDiv(Area(h, w), most) && (0 < w && 0 < h ==> 0 < n)
    {
      TimesIsProduct(h, w);
      AreaGrows(h, w);
      AreaInRange(h, w);
      n := RoundUp(w * h, most);
    }

    /** initSPI: two scanlines of pixels on the longer axis, rounded up to two
        pixels, and a descriptor for each such piece of a full screen. */
    constructor (w: int16, h: int16)
      requires 0 < w <= 16382 && 0 < h <= 16382
      ensures Ready() && fresh(pixelBuf) && fresh(descriptor)
      ensures WIDTH == w && HEIGHT == h && width == w && height == h
    {
      var major: int := if w > h then w else h;
      major := major + major % 2;
      WIDTH, HEIGHT, width, height := w, h, w, h;
      maxFillLen := major * 2;
      pixelBuf := new uint16[major * 2](_ => 0);
      var numDescriptors := DescriptorsFor(w, h, major * 2);
      descriptor := new Descriptor[numDescriptors](_ => Descriptor(0, false, 0, false));
      lastFillColor, lastFillLen, onePixelBuf := 0, 0, 0;
      panel := Panel(map[], 0, 0, w, h, 0, 0);
    }

    // -------------------------------------------------------- the fill cache

    /** Makes sure the buffer holds `len` swapped pixels of the colour, or as many
        as it has room for, filling only what the cache does not hold. */
    method FillCache(color: uint16, len: uint32)
      requires Buffered() && Cached() && len > 0
      modifies this`lastFillColor, this`lastFillLen, pixelBuf
      ensures Cached() && lastFillColor == color && Min(len, maxFillLen) <= lastFillLen
    {
      if color == lastFillColor {
        if len > lastFillLen {
          var fillStart: nat := lastFillLen / 2;
          var fillEnd: nat := ((if len < maxFillLen then len else maxFillLen) + 1) / 2;
          FillPairs(fillStart, fillEnd, Swap(color));
          lastFillLen := fillEnd * 2;
        }
      } else {
        var fillEnd: nat := ((if len < maxFillLen then len else maxFillLen) + 1) / 2;
        FillPairs(0, fillEnd, Swap(color));
        lastFillLen := fillEnd * 2;
        lastFillColor := color;
      }
    }

    /** The buffer is filled 32 bits, two pixels, at a time. */
    method FillPairs(fillStart: nat, fillEnd: nat, word: uint16)
      requires fillStart <= fillEnd && 2 * fillEnd <= pixelBuf.Length
      modifies pixelBuf
      ensures forall k :: 0 <= k < pixelBuf.Length ==>
                pixelBuf[k] == if 2 * fillStart <= k < 2 * fillEnd then word else old(pixelBuf[k])
    {
      var i := fillStart;
      while i < fillEnd
        invariant fillStart <= i <= fillEnd
        invariant forall k :: 0 <= k < pixelBuf.Length ==>
                    pixelBuf[k] == if 2 * fillStart <= k < 2 * i then word else old(pixelBuf[k])
      {
        pixelBuf[2 * i], pixelBuf[2 * i + 1] := word, word;
        i := i + 1;
      }
    }

    // -------------------------------------------------- descriptors for a fill

    /** Rounding up in 32 bits. */
    static method RoundUp(len: nat, most: uint16) returns (n: nat)
      requires most > 0 && len <= MAX_RUN
      ensures n == CeilDiv(len, most)
    {
      CeilDivIs(len, most);
      var sum: uint32 := len + most - 1;
      n := sum / most;
    }

    /** The loop that fills the descriptor list, as writeColor has it twice and
        writePixels once: `len0` pixels, at most `most` in each. */
    method Describe(len0: uint32, most: uint16, mode: Reads) returns (ghost n: nat)
      requires 0 < len0 <= MAX_RUN && 0 < most && CeilDiv(len0, most) <= descriptor.Length
      modifies descriptor
      ensures var ds := Pieces(0, len0, most, mode);
        n == |ds| && LinkedUpTo(descriptor[..], n) && SameButLinks(ds, descriptor[..])
    {
      var from: nat, len: nat, d: nat := 0, len0, 0;
      var numDescriptors := RoundUp(len, most);
      ghost var all := Pieces(0, len0, most, mode);
      PiecesCount(0, len0, most, mode);
      while d < numDescriptors
        invariant d <= numDescriptors == |all|
        invariant all == descriptor[..d] + Pieces(from, len, most, mode)
      {
        var count: nat := if len < most then len else most;
        ghost var done := descriptor[..d];
        NextPiece(all, done, from, len, most, mode);
        descriptor[d] := Piece(from, count, mode);
        assert descriptor[..d + 1] == done + [descriptor[d]];
        len := len - count;
        if mode.NextWords? {
          from := from + count;
        }
        d := d + 1;
      }
      n := d;
      Unlink(d, all);
    }

    /** `descriptor[d - 1].DESCADDR.reg = 0`: what stops the controller there. */
    method Unlink(n: nat, ghost all: seq<Descriptor>)
      requires 0 < n <= descriptor.Length && descriptor[..n] == all
      requires forall k :: 0 <= k < n ==> all[k].more
      modifies descriptor
      ensures LinkedUpTo(descriptor[..], n) && SameButLinks(all, descriptor[..])
    {
      assert forall k :: 0 <= k < n ==> descriptor[k] == all[k];
      descriptor[n - 1] := descriptor[n - 1].(more := false);
    }

    // -------------------------------------------------------------- the bus

    /** The transfer: the controller starts on entry `first` and is told nothing
        else; it follows the links through the list, whatever earlier transfers
        left there, and the panel takes what arrives two bytes at a time. */
    method StartJob(first: nat, memory: seq<uint16>)
      requires first < descriptor.Length && Runs(descriptor[first..], memory)
      modifies this`panel
      ensures panel == PushAll(old(panel), BusPixels(Chain(descriptor[first..], memory, onePixelBuf)))
    {
      panel := PushAll(panel, BusPixels(Chain(descriptor[first..], memory, onePixelBuf)));
    }

    method StartList(memory: seq<uint16>)
      requires Runs(descriptor[..], memory)
      modifies this`panel
      ensures panel == PushAll(old(panel), BusPixels(Chain(descriptor[..], memory, onePixelBuf)))
    {
      assert descriptor[0..] == descriptor[..];
      StartJob(0, memory);
    }

    /** The two ways of preparing a fill. */
    method FillOneByte(color: uint16, lo: uint8, len: uint32)
      requires Buffered() && 0 < len <= MAX_RUN
      requires CeilDiv(len, MAX_TRANSFER) <= descriptor.Length && color / 256 == color % 256 == lo
      modifies this`onePixelBuf, descriptor
      ensures Runs(descriptor[..], pixelBuf[..])
      ensures BusPixels(Chain(descriptor[..], pixelBuf[..], onePixelBuf)) == Repeat(color, len)
    {
      onePixelBuf := lo;
      ghost var n := Describe(len, MAX_TRANSFER, OneByte);
      PiecesSend(pixelBuf[..], onePixelBuf, color, len, MAX_TRANSFER, OneByte);
      DescribedSends(descriptor[..], Pieces(0, len, MAX_TRANSFER, OneByte), pixelBuf[..], onePixelBuf, Repeat(color, len));
    }

    method FillFromBuffer(color: uint16, len: uint32)
      requires Buffered() && Cached() && 0 < len <= MAX_RUN
      requires CeilDiv(len, maxFillLen) <= descriptor.Length
      modifies this`lastFillColor, this`lastFillLen, pixelBuf, descriptor
      ensures Cached() && Runs(descriptor[..], pixelBuf[..])
      ensures BusPixels(Chain(descriptor[..], pixelBuf[..], onePixelBuf)) == Repeat(color, len)
    {
      FillCache(color, len);
      ghost var n := Describe(len, maxFillLen, SameWords);
      PiecesSend(pixelBuf[..], onePixelBuf, color, len, maxFillLen, SameWords);
      DescribedSends(descriptor[..], Pieces(0, len, maxFillLen, SameWords), pixelBuf[..], onePixelBuf, Repeat(color, len));
    }

    /** writeColor puts `len` pixels of the colour on the panel, whatever was
        cached before, and never runs off the descriptor list. */
    method WriteColor(color: uint16, len: uint32)
      requires Ready() && len <= Area(HEIGHT, WIDTH)
      modifies this`lastFillColor, this`lastFillLen, this`onePixelBuf, this`panel, pixelBuf, descriptor
      ensures Ready() && panel == PushAll(old(panel), Repeat(color, len))
    {
      if len == 0 {
        return;
      }
      var hi: uint8, lo: uint8 := color / 256, color % 256;
      if len >= 16 {
        FillByDma(color, hi, lo, len);
      } else {
        PushEach(hi, lo, len);
      }
    }

    method FillByDma(color: uint16, hi: uint8, lo: uint8, len: uint32)
      requires Ready() && 0 < len <= Area(HEIGHT, WIDTH) && hi == color / 256 && lo == color % 256
      modifies this`lastFillColor, this`lastFillLen, this`onePixelBuf, this`panel, pixelBuf, descriptor
      ensures Ready() && panel == PushAll(old(panel), Repeat(color, len))
    {
      if hi == lo {
        SendOneByte(color, lo, len);
      } else {
        SendFromBuffer(color, len);
      }
    }

    method SendOneByte(color: uint16, lo: uint8, len: uint32)
      requires Ready() && 0 < len <= Area(HEIGHT, WIDTH) && color / 256 == color % 256 == lo
      modifies this`onePixelBuf, this`panel, descriptor
      ensures Ready() && panel == PushAll(old(panel), Repeat(color, len))
    {
      ScreenListed(len, MAX_TRANSFER);
      FillOneByte(color, lo, len);
      StartList(pixelBuf[..]);
    }

    method SendFromBuffer(color: uint16, len: uint32)
      requires Ready() && 0 < len <= Area(HEIGHT, WIDTH)
      modifies this`lastFillColor, this`lastFillLen, this`panel, pixelBuf, descriptor
      ensures Ready() && panel == PushAll(old(panel), Repeat(color, len))
    {
      ScreenListed(len, maxFillLen);
      SendFilled(color, len);
    }

    method SendFilled(color: uint16, len: uint32)
      requires Buffered() && Cached() && 0 < len <= MAX_RUN
      requires CeilDiv(len, maxFillLen) <= descriptor.Length
      modifies this`lastFillColor, this`lastFillLen, this`panel, pixelBuf, descriptor
      ensures Cached() && panel == PushAll(old(panel), Repeat(color, len))
    {
      FillFromBuffer(color, len);
      StartList(pixelBuf[..]);
    }

    /** Short runs skip DMA: two bytes a pixel, straight to the bus. */
    method PushEach(hi: uint8, lo: uint8, len0: uint32)
      modifies this`panel
      ensures panel == PushAll(old(panel), Repeat(hi * 256 + lo, len0))
    {
      var len := len0;
      while len != 0
        invariant 0 <= len <= len0
        invariant panel == PushAll(old(panel), Repeat(hi * 256 + lo, len0 - len))
        decreases len
      {
        assert Repeat(hi * 256 + lo, len0 - len + 1)[..len0 - len] == Repeat(hi * 256 + lo, len0 - len);
        panel := Push(panel, hi * 256 + lo);
        len := len - 1;
      }
    }

    /** writePixels. Pixels in the processor's own byte order are copied, a
        scanline at a time, into the two halves of the buffer in turn, with the
        bytes swapped; big-endian ones are sent from where they are. The fill the
        buffer held counts as lost, and the cache says so. */
    method WritePixels(colors: seq<uint16>, bigEndian: bool)
      requires Ready() && |colors| <= MAX_RUN
      requires if bigEndian then CeilDiv(|colors|, MAX_TRANSFER) <= descriptor.Length
               else ChunksListed(|colors|, maxFillLen / 2, descriptor.Length)
      modifies this`lastFillColor, this`lastFillLen, this`panel, pixelBuf, descriptor
      ensures Ready() && panel == PushAll(old(panel), if bigEndian then Swapped(colors) else colors)
    {
      if |colors| == 0 {
        return;
      }
      if !bigEndian {
        WriteChunks(colors);
      } else {
        WriteInPlace(colors);
      }
      lastFillColor := 0;
      lastFillLen := 0;
    }

    method WriteChunks(colors: seq<uint16>)
      requires Buffered() && ChunksListed(|colors|, maxFillLen / 2, descriptor.Length)
      modifies this`panel, pixelBuf, descriptor
      ensures panel == PushAll(old(panel), colors)
    {
      var maxSpan: nat := maxFillLen / 2;
      var pixelBufIdx: nat := 0;
      var len: nat, p: nat := |colors|, 0;
      ghost var k: nat := 0;
      while len != 0
        invariant p + len == |colors| && pixelBufIdx == Half(k)
        invariant k + CeilDiv(len, maxSpan) == CeilDiv(|colors|, maxSpan)
        invariant panel == PushAll(old(panel), colors[..p])
        decreases len
      {
        var count := if len < maxSpan then len else maxSpan;
        WriteChunk(colors[p..p + count], pixelBufIdx);
        PushNext(old(panel), colors, p, count);
        p := p + count;
        pixelBufIdx := 1 - pixelBufIdx;
        k := k + 1;
        len := len - count;
      }
      assert colors[..p] == colors;
    }

    /** One chunk: swapped into half `idx` of the buffer and sent from there, by
        entry `idx` of the list alone. */
    method WriteChunk(colors: seq<uint16>, idx: nat)
      requires Buffered() && idx <= 1 && idx < descriptor.Length && 0 < |colors| <= maxFillLen / 2
      modifies this`panel, pixelBuf, descriptor
      ensures panel == PushAll(old(panel), colors)
    {
      var half: nat := if idx == 0 then 0 else maxFillLen / 2;
      var i := 0;
      while i < |colors|
        invariant 0 <= i <= |colors|
        invariant forall k :: 0 <= k < i ==> pixelBuf[half + k] == Swap(colors[k])
        modifies pixelBuf
      {
        pixelBuf[half + i] := Swap(colors[i]);
        i := i + 1;
      }
      descriptor[idx] := Descriptor(2 * half + |colors| * 2, true, |colors| * 2, false);
      ChunkSends(descriptor[idx..], pixelBuf[..], onePixelBuf, colors, half);
      StartJob(idx, pixelBuf[..]);
    }

    /** The big-endian branch: one chain over the caller's own memory. */
    method WriteInPlace(colors: seq<uint16>)
      requires Buffered() && 0 < |colors| <= MAX_RUN && CeilDiv(|colors|, MAX_TRANSFER) <= descriptor.Length
      modifies this`panel, descriptor
      ensures panel == PushAll(old(panel), Swapped(colors))
    {
      ghost var n := Describe(|colors|, MAX_TRANSFER, NextWords);
      SwappedIsBigEndian(colors);
      NextPiecesSend(colors, onePixelBuf, Swapped(colors), 0, |colors|, MAX_TRANSFER);
      assert Swapped(colors)[0..] == Swapped(colors);
      DescribedSends(descriptor[..], Pieces(0, |colors|, MAX_TRANSFER, NextWords), colors, onePixelBuf, Swapped(colors));
      StartList(colors);
    }

    /** Up to a full screen of pixels never runs past the end of the list: not the
        fill, in pieces the size of the buffer, nor either run of longer pieces. */
    lemma ScreenListed(len: nat, most: nat)
      requires Sized() && len <= Area(HEIGHT, WIDTH) && maxFillLen <= most
      ensures len <= MAX_RUN && CeilDiv(len, most) <= descriptor.Length
    {
      AreaInRange(HEIGHT, WIDTH);
      CeilMono(len, Area(HEIGHT, WIDTH), most, maxFillLen);
    }

    /** Exactly when writePixels, in the processor's byte order, stays in the list:
        on every screen three or more pixels across, and elsewhere for no more
        than the half buffer a scanline fits. */
    lemma PixelsListed(len: nat)
      requires Sized()
      ensures ChunksListed(len, maxFillLen / 2, descriptor.Length) <==>
              (3 <= WIDTH && 3 <= HEIGHT) || len <= maxFillLen / 2
    {
      ChunksInList(WIDTH, HEIGHT, maxFillLen / 2, len);
    }

    /** A call that does not: 101 pixels on a screen of 2 by 100, which is given
        one descriptor; the second chunk is described outside the list. */
    lemma NarrowScreen()
      requires Sized() && WIDTH == 2 && HEIGHT == 100
      ensures descriptor.Length == 1 && 101 <= Area(HEIGHT, WIDTH) && !ChunksListed(101, maxFillLen / 2, descriptor.Length)
    {
      TwoDescriptors(WIDTH, HEIGHT, maxFillLen / 2);
      TimesIsProduct(HEIGHT, WIDTH);
      PixelsListed(101);
    }

    // ------------------------------------------------------ clipped drawing

    /** setAddrWindow, which only takes windows on the screen. */
    method SetAddrWindow(x: int16, y: int16, w: int16, h: int16)
      requires 0 <= x && 0 <= y && 0 < w && 0 < h && x + w <= width && y + h <= height
      modifies this`panel
      ensures panel == OpenWindow(old(panel), x, y, w, h) && AtRow(panel, y)
    {
      panel := OpenWindow(panel, x, y, w, h);
    }

    /** The nested tests of writeFillRect and fillRect: what is left of a
        rectangle, given from either corner, is exactly its part on the screen,
        and the tests pass just when there is such a part. */
    method ClipRect(x0: int16, y0: int16, w0: int16, h0: int16)
        returns (drawn: bool, x: int16, y: int16, w: int16, h: int16)
      requires 0 < width && 0 < height && Holds(x0, w0) && Holds(y0, h0)
      ensures drawn ==> 0 < w && 0 < h && 0 <= x && 0 <= y && x + w <= width && y + h <= height
      ensures drawn ==> Clips(x0, w0, width, x, w) && Clips(y0, h0, height, y, h)
      ensures !drawn ==> forall u, v :: !(OnScreen(width, height, u, v) && Spans(x0, w0, u) && Spans(y0, h0, v))
    {
      drawn, x, y, w, h := false, x0, y0, w0, h0;
      if w != 0 && h != 0 {
        if w < 0 {
          x := x + (w + 1);
          w := -w;
        }
        if x < width {
          if h < 0 {
            y := y + (h + 1);
            h := -h;
          }
          if y < height {
            var x2: int16 := x + w - 1;
            if x2 >= 0 {
              var y2: int16 := y + h - 1;
              if y2 >= 0 {
                if x < 0 {
                  x := 0;
                  w := x2 + 1;
                }
                if y < 0 {
                  y := 0;
                  h := y2 + 1;
                }
                if x2 >= width {
                  w := width - x;
                }
                if y2 >= height {
                  h := height - y;
                }
                drawn := true;
              }
            }
          }
        }
      }
    }

    /** fillRect: the part of the rectangle on the screen takes the colour, and
        nothing else on the glass changes. */
    method FillRect(x0: int16, y0: int16, w0: int16, h0: int16, color: uint16)
      requires Ready() && Holds(x0, w0) && Holds(y0, h0)
      modifies this`lastFillColor, this`lastFillLen, this`onePixelBuf, this`panel, pixelBuf, descriptor
      ensures Ready()
      ensures forall p, q :: Look(panel, p, q) ==
                if 0 <= p < width && 0 <= q < height && (if w0 < 0 then x0 + w0 < p <= x0 else x0 <= p < x0 + w0)
                   && (if h0 < 0 then y0 + h0 < q <= y0 else y0 <= q < y0 + h0) then color else Look(old(panel), p, q)
    {
      var drawn, x, y, w, h := ClipRect(x0, y0, w0, h0);
      if drawn {
        FillPreclipped(x, y, w, h, color);
      }
      forall p, q
        ensures Look(panel, p, q) ==
                if 0 <= p < width && 0 <= q < height && (if w0 < 0 then x0 + w0 < p <= x0 else x0 <= p < x0 + w0)
                   && (if h0 < 0 then y0 + h0 < q <= y0 else y0 <= q < y0 + h0) then color else Look(old(panel), p, q)
      {
        assert OnScreen(width, height, p, q) <==> 0 <= p < width && 0 <= q < height;
        if drawn {
          assert (0 <= p < width && Spans(x0, w0, p)) <==> Spans(x, w, p);
          assert (0 <= q < height && Spans(y0, h0, q)) <==> Spans(y, h, q);
        } else {
          assert !(OnScreen(width, height, p, q) && Spans(x0, w0, p) && Spans(y0, h0, q));
        }
      }
    }

    /** writeFillRectPreclipped. */
    method FillPreclipped(x: int16, y: int16, w: int16, h: int16, color: uint16)
      requires Ready() && 0 <= x && 0 <= y && 0 < w && 0 < h && x + w <= width && y + h <= height
      modifies this`lastFillColor, this`lastFillLen, this`onePixelBuf, this`panel, pixelBuf, descriptor
      ensures Ready()
      ensures forall p, q :: Look(panel, p, q) ==
                if x <= p < x + w && y <= q < y + h then color else Look(old(panel), p, q)
    {
      SetAddrWindow(x, y, w, h);
      ghost var window := panel;
      ScreenHolds(WIDTH, HEIGHT, width, height, w, h);
      WriteColor(color, w * h);
      FillWindow(window, color, w, h);
    }

    method WritePixel(x: int16, y: int16, color: uint16)
      requires Turned()
      modifies this`panel
      ensures forall p, q :: Look(panel, p, q) ==
                if OnScreen(width, height, x, y) && p == x && q == y then color else Look(old(panel), p, q)
    {
      if x >= 0 && x < width && y >= 0 && y < height {
        SetAddrWindow(x, y, 1, 1);
        PushPixel(old(panel), x, y, color);
        panel := Push(panel, color);
      }
    }

    // ----------------------------------------------------------- RGB bitmaps

    /** drawRGBBitmap of Adafruit_SPITFT: clipped once, then pushed row by row. */
    method DrawRGBBitmap(x0: int16, y0: int16, pcolors: seq<uint16>, w0: int16, h0: int16)
      requires Ready()
      requires 0 < w0 && 0 < h0 && Holds(x0, w0) && Holds(y0, h0) && |pcolors| == Area(h0, w0)
      modifies this`lastFillColor, this`lastFillLen, this`panel, pixelBuf, descriptor
      ensures Ready() && BitmapShown(old(panel), panel, width, height, x0, y0, pcolors, w0, h0)
    {
      var drawn, x, y, w, h, bx1, by1 := ClipBitmap(x0, y0, w0, h0);
      if drawn {
        PushClipped(x, y, w, h, bx1, by1, pcolors, w0, h0);
        ClippedBitmap(old(panel), pcolors, bx1, by1, w0, h0, w, h, x0, y0, width, height);
      }
    }

    /** The window, and the rows that go into it. */
    method PushClipped(x: int16, y: int16, w: int16, h: int16, bx1: int16, by1: int16,
                       pcolors: seq<uint16>, w0: int16, ghost h0: int16)
      requires Ready() && 0 < w && 0 < h && 0 <= x && 0 <= y && x + w <= width && y + h <= height
      requires 0 <= bx1 && bx1 + w <= w0 && 0 <= by1 && by1 + h <= h0 && |pcolors| == Area(h0, w0)
      modifies this`lastFillColor, this`lastFillLen, this`panel, pixelBuf, descriptor
      ensures Ready() && Times(by1 + h, w0) <= |pcolors|
      ensures panel == PushAll(OpenWindow(old(panel), x, y, w, h), Flatten(Rows(pcolors, bx1, by1, w0, w, h)))
    {
      TimesGrows(0, by1, w0);
      TimesGrows(by1, by1 + h, w0);
      TimesGrows(by1 + h, h0, w0);
      var p := Product(by1, w0);
      SetAddrWindow(x, y, w, h);
      PushBitmapRows(pcolors, p + bx1, bx1, by1, w0, w, h);
    }

    /** Its clipping: the window on the screen, and how many columns and rows of
        the bitmap come before it. */
    method ClipBitmap(x0: int16, y0: int16, w0: int16, h0: int16)
        returns (drawn: bool, x: int16, y: int16, w: int16, h: int16, bx1: int16, by1: int16)
      requires 0 < width && 0 < height && 0 < w0 && 0 < h0 && Holds(x0, w0) && Holds(y0, h0)
      ensures drawn ==> 0 < w && 0 < h && 0 <= x && 0 <= y && x + w <= width && y + h <= height
      ensures drawn ==> 0 <= bx1 && bx1 + w <= w0 && x == x0 + bx1 && 0 <= by1 && by1 + h <= h0 && y == y0 + by1
      ensures drawn ==> Clips(x0, w0, width, x, w) && Clips(y0, h0, height, y, h)
      ensures !drawn ==> forall u, v :: !(OnScreen(width, height, u, v) && Spans(x0, w0, u) && Spans(y0, h0, v))
    {
      drawn, x, y, w, h, bx1, by1 := false, x0, y0, w0, h0, 0, 0;
      if x >= width || y >= height {
        return;
      }
      var x2: int16 := x + w - 1;
      var y2: int16 := y + h - 1;
      if x2 < 0 || y2 < 0 {
        return;
      }
      drawn := true;
      if x < 0 {
        w := w + x;
        bx1 := -x;
        x := 0;
      }
      if y < 0 {
        h := h + y;
        by1 := -y;
        y := 0;
      }
      if x2 >= width {
        w := width - x;
      }
      if y2 >= height {
        h := height - y;
      }
    }

    static method Product(m: nat, n: nat) returns (p: int)
      ensures p == Times(m, n)
    {
      TimesIsProduct(m, n);
      p := m * n;
    }

    /** The loop over the clipped rows: the source pointer starts at the first
        visible pixel and moves on by the unclipped width. */
    method PushBitmapRows(pcolors: seq<uint16>, start: nat, ghost bx1: nat, ghost by1: nat, saveW: nat, w: nat, h0: nat)
      requires Ready() && 0 < w <= maxFillLen / 2 && bx1 + w <= saveW && start == Times(by1, saveW) + bx1
      requires Times(by1 + h0, saveW) <= |pcolors| && Times(by1, saveW) <= |pcolors|
      modifies this`lastFillColor, this`lastFillLen, this`panel, pixelBuf, descriptor
      ensures Ready() && panel == PushAll(old(panel), Flatten(Rows(pcolors, bx1, by1, saveW, w, h0)))
    {
      var p, h := start, h0;
      ghost var k: nat := 0;
      while h != 0
        invariant k + h == h0 && p == Times(by1 + k, saveW) + bx1
        invariant Times(by1 + k, saveW) <= |pcolors|
        invariant Ready()
        invariant panel == PushAll(old(panel), Flatten(Rows(pcolors, bx1, by1, saveW, w, k)))
        decreases h
      {
        p := PushBitmapRow(pcolors, p, bx1, by1, saveW, w, h0, k, old(panel));
        k := k + 1;
        h := h - 1;
      }
    }

    method PushBitmapRow(pcolors: seq<uint16>, p: nat, ghost bx1: nat, ghost by1: nat, saveW: nat, w: nat,
                         ghost h0: nat, ghost k: nat, ghost start: Panel) returns (p': nat)
      requires Ready() && 0 < w <= maxFillLen / 2 && bx1 + w <= saveW && k < h0
      requires Times(by1 + h0, saveW) <= |pcolors| && p == Times(by1 + k, saveW) + bx1
      requires Times(by1 + k, saveW) <= |pcolors| && panel == PushAll(start, Flatten(Rows(pcolors, bx1, by1, saveW, w, k)))
      modifies this`lastFillColor, this`lastFillLen, this`panel, pixelBuf, descriptor
      ensures Ready() && p' == Times(by1 + k + 1, saveW) + bx1
      ensures Times(by1 + k + 1, saveW) <= |pcolors|
              && panel == PushAll(start, Flatten(Rows(pcolors, bx1, by1, saveW, w, k + 1)))
    {
      TimesGrows(by1 + k + 1, by1 + h0, saveW);
      NextRow(start, pcolors, bx1, by1, saveW, w, k, p);
      PushRow(pcolors[p..p + w]);
      p' := p + saveW;
    }

    /** `writePixels(pcolors, w)`: one chunk at most, which any screen has a
        descriptor for. */
    method PushRow(row: seq<uint16>)
      requires Ready() && |row| <= maxFillLen / 2
      modifies this`lastFillColor, this`lastFillLen, this`panel, pixelBuf, descriptor
      ensures Ready() && panel == PushAll(old(panel), row)
    {
      OneChunk(|row|, maxFillLen / 2, descriptor.Length);
      WritePixels(row, false);
    }

    /** drawRGBBitmap of Adafruit_GFX: every pixel through writePixel. */
    method DrawRGBBitmapByPixel(x: int16, y0: int16, bitmap: seq<uint16>, w: int16, h: int16)
      requires Turned() && 0 < w && 0 < h && x + w < 0x8000 && y0 + h < 0x8000 && |bitmap| == Area(h, w)
      modifies this`panel
      ensures BitmapShown(old(panel), panel, width, height, x, y0, bitmap, w, h)
    {
      var y: int16 := y0;
      var j: int16 := 0;
      while j < h
        invariant 0 <= j <= h && y == y0 + j
        invariant BitmapSoFar(old(panel), panel, width, height, x, y0, bitmap, w, h, j, 0)
      {
        var i: int16 := 0;
        while i < w
          invariant 0 <= i <= w
          invariant BitmapSoFar(old(panel), panel, width, height, x, y0, bitmap, w, h, j, i)
        {
          TimesIsProduct(j, w);
          TimesGrows(j + 1, h, w);
          WritePixel(x + i, y, bitmap[j * w + i]);
          i := i + 1;
        }
        j := j + 1;
        y := y + 1;
      }
    }
  }

  lemma NextPiece(all: seq<Descriptor>, done: seq<Descriptor>, from: nat, len: nat, most: nat, mode: Reads)
    requires most > 0 && all == done + Pieces(from, len, most, mode) && |done| < |all|
    ensures var count := if len < most then len else most;
      && len > 0
      && all == done + [Piece(from, count, mode)] +
                Pieces(if mode.NextWords? then from + count else from, len - count, most, mode)
  {
  }

  /** What pixel (i, j) of a w-wide bitmap holds. */
  function PixelOf(bits: seq<uint16>, w: nat, h: nat, i: int, j: int): int
    requires |bits| == Area(h, w) && 0 <= i < w && 0 <= j < h
  {
    TimesGrows(j + 1, h, w);
    TimesGrows(0, j, w);
    bits[Times(j, w) + i]
  }

  /** The first `rows` rows, and `cols` pixels of the next, are shown. */
  ghost predicate BitmapSoFar(p: Panel, q: Panel, width: int, height: int, x: int, y: int,
                              bits: seq<uint16>, w: nat, h: nat, rows: int, cols: int)
    requires |bits| == Area(h, w)
  {
    forall u, v :: Look(q, u, v) ==
      if OnScreen(width, height, u, v) && 0 <= u - x < w && 0 <= v - y < h && (v - y < rows || (v - y == rows && u - x < cols))
      then PixelOf(bits, w, h, u - x, v - y) else Look(p, u, v)
  }

  /** The whole bitmap is shown, clipped to the screen, and nothing else changes. */
  ghost predicate BitmapShown(p: Panel, q: Panel, width: int, height: int, x: int, y: int,
                              bits: seq<uint16>, w: nat, h: nat)
    requires |bits| == Area(h, w)
  {
    BitmapSoFar(p, q, width, height, x, y, bits, w, h, h, 0)
  }

  /** Which is to say: on the screen, pixel (u - x, v - y) of the bitmap, its rows
      of w one after the other, and elsewhere what was there. */
  lemma ShownPixel(p: Panel, q: Panel, width: int, height: int, x: int, y: int,
                   bits: seq<uint16>, w: nat, h: nat, u: int, v: int)
    requires |bits| == Area(h, w) && BitmapShown(p, q, width, height, x, y, bits, w, h)
    ensures |bits| == h * w
    ensures var i := (v - y) * w + (u - x);
      if 0 <= u < width && 0 <= v < height && x <= u < x + w && y <= v < y + h
      then 0 <= i < |bits| && Look(q, u, v) == bits[i] else Look(q, u, v) == Look(p, u, v)
  {
    TimesIsProduct(h, w);
    if x <= u < x + w && y <= v < y + h {
      TimesIsProduct(v - y, w);
      TimesGrows(v - y + 1, h, w);
      TimesGrows(0, v - y, w);
    }
  }

  lemma {:induction false} TimesGrows(m: nat, n: nat, w: nat)
    requires m <= n
    ensures Times(m, w) <= Times(n, w)
  {
    if m < n {
      TimesGrows(m, n - 1, w);
    }
  }

  /** The visible part of k rows of the bitmap. */
  function Rows(bits: seq<uint16>, bx1: nat, by1: nat, saveW: nat, w: nat, k: nat): (rows: seq<seq<int>>)
    requires bx1 + w <= saveW && Times(by1 + k, saveW) <= |bits|
    ensures |rows| == k && AllWide(rows, w)
  {
    if k == 0 then [] else
    TimesGrows(0, by1 + k - 1, saveW);
    var p := Times(by1 + k - 1, saveW) + bx1;
    Rows(bits, bx1, by1, saveW, w, k - 1) + [bits[p..p + w]]
  }

  predicate OnScreen(width: int, height: int, x: int, y: int) {
    0 <= x < width && 0 <= y < height
  }

  /** n pixels from a on, or up to a if n is negative. */
  predicate Spans(a: int, n: int, p: int) {
    if n < 0 then a + n < p <= a else a <= p < a + n
  }

  /** The pixels b to b + m - 1 are those of the run that are on the screen. */
  ghost predicate Clips(a: int, n: int, size: int, b: int, m: int) {
    forall p :: (0 <= p < size && Spans(a, n, p)) <==> Spans(b, m, p)
  }

  /** Both ends of the run fit the 16-bit locals. */
  predicate Holds(a: int, n: int) {
    -0x8000 < n && if n < 0 then -0x8000 <= a + n + 1 else a + n - 1 < 0x8000
  }

  /** No part of the screen has more pixels than the screen. */
  lemma ScreenHolds(WIDTH: nat, HEIGHT: nat, width: nat, height: nat, w: nat, h: nat)
    requires (width == WIDTH && height == HEIGHT) || (width == HEIGHT && height == WIDTH)
    requires w <= width < 0x8000 && h <= height < 0x8000
    ensures w * h == Area(h, w) <= Area(HEIGHT, WIDTH) < 0x1_0000_0000
  {
    TimesIsProduct(h, w);
    TimesIsProduct(HEIGHT, WIDTH);
    ProductMono(w, width, h);
    ProductMono(h, height, width);
    ProductMono(HEIGHT, 0x8000, WIDTH);
  }

  lemma {:induction false} RepeatRows(color: int, w: nat, h: nat)
    ensures Flatten(seq(h, _ => Repeat(color, w))) == Repeat(color, Area(h, w))
  {
    var rows := seq(h, _ => Repeat(color, w));
    if h > 0 {
      RepeatRows(color, w, h - 1);
      assert rows[..h - 1] == seq(h - 1, _ => Repeat(color, w));
      assert Repeat(color, Area(h - 1, w)) + Repeat(color, w) == Repeat(color, Area(h, w));
    }
  }

  /** One colour for every pixel of a window. */
  lemma FillWindow(window: Panel, color: int, w: nat, h: nat)
    requires AtRow(window, window.y0) && w == window.x1 - window.x0 && h == window.y1 - window.y0
    ensures forall p, q :: Look(PushAll(window, Repeat(color, Area(h, w))), p, q) ==
              if window.x0 <= p < window.x1 && window.y0 <= q < window.y1 then color else Look(window, p, q)
  {
    var rows := seq(h, _ => Repeat(color, w));
    RepeatRows(color, w, h);
    forall p, q
      ensures Look(PushAll(window, Repeat(color, Area(h, w))), p, q) ==
        if window.x0 <= p < window.x1 && window.y0 <= q < window.y1 then color else Look(window, p, q)
    {
      PushRows(window, rows, p, q);
    }
  }

  lemma PushNext(q: Panel, colors: seq<int>, p: nat, count: nat)
    requires p + count <= |colors|
    ensures PushAll(q, colors[..p + count]) == PushAll(PushAll(q, colors[..p]), colors[p..p + count])
  {
    assert colors[..p + count] == colors[..p] + colors[p..p + count];
    PushConcat(q, colors[..p], colors[p..p + count]);
  }

  lemma ChunkSends(ds: seq<Descriptor>, words: seq<uint16>, one: uint8, colors: seq<uint16>, from: nat)
    requires ds != [] && |colors| <= 0x7FFF
    requires ds[0] == Descriptor(2 * (from + |colors|), true, 2 * |colors|, false) && from + |colors| <= |words|
    requires forall k :: 0 <= k < |colors| ==> words[from + k] == Swap(colors[k])
    ensures Runs(ds, words) && BusPixels(Chain(ds, words, one)) == colors
  {
    EmitWords(ds[0], words, one, colors, from);
    BusRoundTrip(colors);
    assert Emit(ds[0], words, one) + [] == Emit(ds[0], words, one);
  }

  function Swapped(words: seq<uint16>): (colors: seq<int>)
    ensures |colors| == |words| && forall k :: 0 <= k < |words| ==> colors[k] == Swap(words[k])
  {
    seq(|words|, k requires 0 <= k < |words| => Swap(words[k]))
  }

  lemma SwappedIsBigEndian(words: seq<uint16>)
    ensures BigEndian(words, Swapped(words))
  {
    forall k | 0 <= k < |words|
      ensures 0 <= Swapped(words)[k] < 0x1_0000 && words[k] == Swap(Swapped(words)[k])
    {
      SwapBytes(words[k]);
    }
  }

  /** The bound that keeps a screen's pixel count in 32 bits. */
  lemma AreaInRange(h: nat, w: nat)
    requires h <= 0x7FFF && w <= 0x7FFF
    ensures Area(h, w) <= MAX_RUN
  {
    TimesIsProduct(h, w);
    ProductMono(h, 0x7FFF, w);
  }

  lemma AreaGrows(h: nat, w: nat)
    ensures 0 < w ==> h <= Area(h, w)
    ensures 3 <= w ==> 3 * h <= Area(h, w)
    ensures 3 <= h ==> 3 * w <= Area(h, w)
  {
    TimesIsProduct(h, w);
    if 0 < w {
      ProductMono(1, w, h);
    }
    if 3 <= w {
      ProductMono(3, w, h);
    }
    ProductMono(Min(3, h), h, w);
  }

  /** The half of the buffer chunk k of a writePixels is sent from, which is also
      the descriptor that sends it. */
  function Half(k: nat): nat {
    k % 2
  }

  /** The descriptors `len` pixels need are all among the n in the list. */
  predicate ChunksListed(len: nat, span: nat, n: nat)
    requires span > 0
  {
    forall k :: 0 <= k < CeilDiv(len, span) ==> Half(k) < n
  }

  /** Which runs of chunks the list that initSPI allocates has descriptors for. */
  lemma ChunksInList(w: nat, h: nat, major: nat, len: nat)
    requires 0 < w && 0 < h && major == Max(w, h) + Max(w, h) % 2
    ensures ChunksListed(len, major, CeilDiv(Area(h, w), 2 * major)) <==> (3 <= w && 3 <= h) || len <= major
  {
    var n := CeilDiv(Area(h, w), 2 * major);
    TwoDescriptors(w, h, major);
    AreaGrows(h, w);
    assert n > 0;
    if len > major {
      assert CeilDiv(len, major) == 1 + CeilDiv(len - major, major) && CeilDiv(len - major, major) > 0;
      assert Half(1) == 1;
    } else {
      OneChunk(len, major, n);
    }
  }

  lemma OneChunk(len: nat, span: nat, n: nat)
    requires len <= span && span > 0 && n > 0
    ensures ChunksListed(len, span, n)
  {
    assert CeilDiv(len, span) <= 1 + CeilDiv(0, span);
    assert Half(0) == 0;
  }

  /** There is a descriptor for either half of the buffer exactly when the screen
      is three or more pixels across. */
  lemma TwoDescriptors(w: nat, h: nat, major: nat)
    requires 0 < w && 0 < h && major == Max(w, h) + Max(w, h) % 2
    ensures CeilDiv(Area(h, w), 2 * major) >= 1
    ensures CeilDiv(Area(h, w), 2 * major) >= 2 <==> 3 <= w && 3 <= h
  {
    var n := Area(h, w);
    AreaGrows(h, w);
    AreaNarrow(h, w);
    if n > 2 * major {
      assert CeilDiv(n, 2 * major) == 1 + CeilDiv(n - 2 * major, 2 * major);
    } else {
      assert CeilDiv(n, 2 * major) == if n == 0 then 0 else 1 + CeilDiv(0, 2 * major);
    }
  }

  lemma AreaNarrow(h: nat, w: nat)
    ensures w <= 2 ==> Area(h, w) <= 2 * h
    ensures h <= 2 ==> Area(h, w) <= 2 * w
  {
    TimesIsProduct(h, w);
    if w <= 2 {
      ProductMono(w, 2, h);
    }
    if h <= 2 {
      ProductMono(h, 2, w);
    }
  }

  lemma RowsAppend(bits: seq<uint16>, bx1: nat, by1: nat, saveW: nat, w: nat, k: nat, p: int)
    requires bx1 + w <= saveW && Times(by1 + k + 1, saveW) <= |bits| && p == Times(by1 + k, saveW) + bx1
    ensures Times(by1 + k, saveW) <= |bits| && 0 <= p && p + w <= |bits|
    ensures Rows(bits, bx1, by1, saveW, w, k + 1) == Rows(bits, bx1, by1, saveW, w, k) + [bits[p..p + w]]
  {
    TimesGrows(0, by1 + k, saveW);
    assert by1 + (k + 1) - 1 == by1 + k;
  }

  lemma NextRow(q: Panel, bits: seq<uint16>, bx1: nat, by1: nat, saveW: nat, w: nat, k: nat, p: int)
    requires bx1 + w <= saveW && Times(by1 + k + 1, saveW) <= |bits| && p == Times(by1 + k, saveW) + bx1
    ensures Times(by1 + k, saveW) <= |bits| && 0 <= p && p + w <= |bits|
    ensures PushAll(q, Flatten(Rows(bits, bx1, by1, saveW, w, k + 1))) ==
            PushAll(PushAll(q, Flatten(Rows(bits, bx1, by1, saveW, w, k))), bits[p..p + w])
  {
    RowsAppend(bits, bx1, by1, saveW, w, k, p);
    FlattenAppend(q, Rows(bits, bx1, by1, saveW, w, k), bits[p..p + w]);
  }

  lemma FlattenAppend(q: Panel, rows: seq<seq<int>>, row: seq<int>)
    ensures PushAll(q, Flatten(rows + [row])) == PushAll(PushAll(q, Flatten(rows)), row)
  {
    assert (rows + [row])[..|rows|] == rows;
    PushConcat(q, Flatten(rows), row);
  }

  lemma {:induction false} RowAt(bits: seq<uint16>, bx1: nat, by1: nat, saveW: nat, w: nat, k: nat, h: nat, i: nat, j: nat)
    requires bx1 + w <= saveW && by1 + k <= h && |bits| == Area(h, saveW) && i < w && j < k
    requires Times(by1 + k, saveW) <= |bits|
    ensures Rows(bits, bx1, by1, saveW, w, k)[j][i] == PixelOf(bits, saveW, h, bx1 + i, by1 + j)
  {
    TimesGrows(0, by1 + k - 1, saveW);
    TimesGrows(by1 + k - 1, by1 + k, saveW);
    if j < k - 1 {
      RowAt(bits, bx1, by1, saveW, w, k - 1, h, i, j);
    }
  }

  /** Pushing the visible rows into their window shows the bitmap. */
  lemma ClippedBitmap(p: Panel, bits: seq<uint16>, bx1: nat, by1: nat, w0: nat, h0: nat, w: nat, h: nat,
                      x0: int, y0: int, width: int, height: int)
    requires |bits| == Area(h0, w0) && 0 < w && 0 < h && bx1 + w <= w0 && by1 + h <= h0
    requires Times(by1 + h, w0) <= |bits|
    requires Clips(x0, w0, width, x0 + bx1, w) && Clips(y0, h0, height, y0 + by1, h)
    ensures BitmapShown(p, PushAll(OpenWindow(p, x0 + bx1, y0 + by1, w, h), Flatten(Rows(bits, bx1, by1, w0, w, h))),
                        width, height, x0, y0, bits, w0, h0)
  {
    var window, rows := OpenWindow(p, x0 + bx1, y0 + by1, w, h), Rows(bits, bx1, by1, w0, w, h);
    var q := PushAll(window, Flatten(rows));
    forall u, v
      ensures Look(q, u, v) ==
              if OnScreen(width, height, u, v) && 0 <= u - x0 < w0 && 0 <= v - y0 < h0
              then PixelOf(bits, w0, h0, u - x0, v - y0) else Look(p, u, v)
    {
      PushRows(window, rows, u, v);
      assert (0 <= u < width && Spans(x0, w0, u)) <==> Spans(x0 + bx1, w, u);
      assert (0 <= v < height && Spans(y0, h0, v)) <==> Spans(y0 + by1, h, v);
      if x0 + bx1 <= u < x0 + bx1 + w && y0 + by1 <= v < y0 + by1 + h {
        RowAt(bits, bx1, by1, w0, w, h, h0, u - x0 - bx1, v - y0 - by1);
      }
    }
  }

  /** w x h, as the count of pixels a screen holds. */
  function Area(h: nat, w: nat): nat {
    TimesIsProduct(h, w);
    ProductMono(0, h, w);
    Times(h, w)
  }

  /** The list begins with these entries, links aside. */
  predicate SameButLinks(ps: seq<Descriptor>, ds: seq<Descriptor>) {
    |ps| <= |ds| && forall k :: 0 <= k < |ps| ==> ds[k] == ps[k].(more := ds[k].more)
  }

  /** What a described run sends over the bus. */
  lemma DescribedSends(ds: seq<Descriptor>, ps: seq<Descriptor>, words: seq<uint16>, one: uint8, colors: seq<int>)
    requires SameButLinks(ps, ds) && LinkedUpTo(ds, |ps|)
    requires AllInMemory(ps, words) && EmitList(ps, words, one) == BusBytes(colors)
    ensures Runs(ds, words) && BusPixels(Chain(ds, words, one)) == colors
  {
    LinksDontMatter(ps, ds[..|ps|], words, one);
    ChainIsList(ds, |ps|, words, one);
    BusRoundTrip(colors);
  }
}
