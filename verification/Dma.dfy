/** The DMA side of Adafruit_SPITFT: descriptor chains and what they send. */
module Dma {
  import opened CInts
  import opened Panel

  /** One entry of the descriptor list: `bytes` bytes that stop at `end` in the
      source memory, or one byte over and over; `more` links it to the next. */
  datatype Descriptor = Descriptor(end: int, inc: bool, bytes: nat, more: bool)

  /** Memory is little-endian: a word's low byte comes first. */
  function MemoryByte(words: seq<uint16>, i: nat): int
    requires i < 2 * |words|
  {
    if i % 2 == 0 then words[i / 2] % 256 else words[i / 2] / 256
  }

  /** The byte count fits its 16-bit register, and the bytes are there. */
  predicate InMemory(d: Descriptor, words: seq<uint16>) {
    d.bytes < 0x1_0000 && (d.inc ==> d.bytes <= d.end <= 2 * |words|)
  }

  function Emit(d: Descriptor, words: seq<uint16>, one: uint8): seq<int>
    requires InMemory(d, words)
  {
    if d.inc then seq(d.bytes, i requires 0 <= i < d.bytes => MemoryByte(words, d.end - d.bytes + i))
    else seq(d.bytes, _ => one)
  }

  predicate AllInMemory(ds: seq<Descriptor>, words: seq<uint16>) {
    forall k :: 0 <= k < |ds| ==> InMemory(ds[k], words)
  }

  /** All entries, one after the other. */
  function EmitList(ds: seq<Descriptor>, words: seq<uint16>, one: uint8): seq<int>
    requires AllInMemory(ds, words)
  {
    if ds == [] then [] else Emit(ds[0], words, one) + EmitList(ds[1..], words, one)
  }

  /** Started on the first entry, the controller follows the links to an unlinked
      one without leaving the list, and reads nothing outside the memory. */
  predicate Runs(ds: seq<Descriptor>, words: seq<uint16>) {
    ds != [] && InMemory(ds[0], words) && (ds[0].more ==> Runs(ds[1..], words))
  }

  /** What it sends: the links alone say where it stops. */
  function Chain(ds: seq<Descriptor>, words: seq<uint16>, one: uint8): seq<int>
    requires Runs(ds, words)
  {
    Emit(ds[0], words, one) + if ds[0].more then Chain(ds[1..], words, one) else []
  }

  /** n entries, each linked to the next but the n-th, whatever follows it. */
  predicate LinkedUpTo(ds: seq<Descriptor>, n: nat) {
    0 < n <= |ds| && (forall k :: 0 <= k < n - 1 ==> ds[k].more) && !ds[n - 1].more
  }

  /** A list linked up to its n-th entry sends the first n, and no more. */
  lemma {:induction false} ChainIsList(ds: seq<Descriptor>, n: nat, words: seq<uint16>, one: uint8)
    requires LinkedUpTo(ds, n) && AllInMemory(ds[..n], words)
    ensures Runs(ds, words) && Chain(ds, words, one) == EmitList(ds[..n], words, one)
  {
    assert ds[..n][0] == ds[0] && ds[..n][1..] == ds[1..][..n - 1];
    if n > 1 {
      ChainIsList(ds[1..], n - 1, words, one);
    }
  }

  /** What the descriptors of a run read: one byte over and over, the same words
      again for every piece, or words further on for each. */
  datatype Reads = OneByte | SameWords | NextWords

  /** The pieces a run of pixels is cut into, at most `most` pixels each. */
  function Pieces(from: nat, len: nat, most: nat, mode: Reads): (ds: seq<Descriptor>)
    requires most > 0
    decreases len
  {
    if len == 0 then [] else
    var count := if len < most then len else most;
    [Piece(from, count, mode)] + Pieces(if mode.NextWords? then from + count else from, len - count, most, mode)
  }

  function Piece(from: nat, count: nat, mode: Reads): Descriptor {
    Descriptor(2 * (from + count), !mode.OneByte?, 2 * count, true)
  }

  lemma {:induction false} PiecesCount(from: nat, len: nat, most: nat, mode: Reads)
    requires most > 0
    ensures |Pieces(from, len, most, mode)| == CeilDiv(len, most)
    ensures forall k :: 0 <= k < |Pieces(from, len, most, mode)| ==> Pieces(from, len, most, mode)[k].more
    decreases len
  {
    if len > 0 {
      var count := if len < most then len else most;
      PiecesCount(if mode.NextWords? then from + count else from, len - count, most, mode);
    }
  }

  /** The same entries but for their links send the same. */
  lemma {:induction false} LinksDontMatter(ds: seq<Descriptor>, es: seq<Descriptor>, words: seq<uint16>, one: uint8)
    requires |ds| == |es| && AllInMemory(ds, words)
    requires forall k :: 0 <= k < |ds| ==> es[k] == ds[k].(more := es[k].more)
    ensures AllInMemory(es, words) && EmitList(es, words, one) == EmitList(ds, words, one)
  {
    if ds != [] {
      LinksDontMatter(ds[1..], es[1..], words, one);
    }
  }

  /** The memory a run of one colour is sent from holds enough of it. */
  predicate Source(words: seq<uint16>, one: uint8, color: uint16, len: nat, most: nat, mode: Reads) {
    if mode.OneByte? then color / 256 == color % 256 == one
    else mode.SameWords? && Min(len, most) <= |words| && forall k :: 0 <= k < Min(len, most) ==> words[k] == Swap(color)
  }

  /** What a list of entries puts on the bus. */
  ghost predicate Sends(ds: seq<Descriptor>, words: seq<uint16>, one: uint8, bytes: seq<int>) {
    AllInMemory(ds, words) && EmitList(ds, words, one) == bytes
  }

  lemma SendsMore(d: Descriptor, rest: seq<Descriptor>, words: seq<uint16>, one: uint8, head: seq<int>, tail: seq<int>)
    requires InMemory(d, words) && Emit(d, words, one) == head && Sends(rest, words, one, tail)
    ensures Sends([d] + rest, words, one, head + tail)
  {
    assert ([d] + rest)[1..] == rest;
  }

  /** Cut into pieces, the run is sent whole. */
  lemma {:induction false} PiecesSend(words: seq<uint16>, one: uint8, color: uint16, len: nat, most: nat, mode: Reads)
    requires 0 < most <= 0x7FFF && Source(words, one, color, len, most, mode)
    ensures Sends(Pieces(0, len, most, mode), words, one, BusBytes(Repeat(color, len)))
  {
    if len > 0 {
      var count := if len < most then len else most;
      PiecesSend(words, one, color, len - count, most, mode);
      PieceThenRest(words, one, color, count, len - count, mode, Pieces(0, len - count, most, mode));
    }
  }

  lemma PieceThenRest(words: seq<uint16>, one: uint8, color: uint16, count: nat, left: nat, mode: Reads, rest: seq<Descriptor>)
    requires count <= 0x7FFF && Source(words, one, color, count, count, mode) && Sends(rest, words, one, BusBytes(Repeat(color, left)))
    ensures Sends([Piece(0, count, mode)] + rest, words, one, BusBytes(Repeat(color, count + left)))
  {
    PieceSend(Piece(0, count, mode), words, one, color, count, mode);
    SendsMore(Piece(0, count, mode), rest, words, one, BusBytes(Repeat(color, count)), BusBytes(Repeat(color, left)));
    assert Repeat(color, count + left) == Repeat(color, count) + Repeat(color, left);
    BusConcat(Repeat(color, count), Repeat(color, left));
  }

  /** Pixels that lie in memory byte for byte as they go over the bus. */
  predicate BigEndian(words: seq<uint16>, colors: seq<int>) {
    |words| == |colors| && forall k :: 0 <= k < |colors| ==> 0 <= colors[k] < 0x1_0000 && words[k] == Swap(colors[k])
  }

  /** Cut into pieces, they are all sent, in order. */
  lemma {:induction false} NextPiecesSend(words: seq<uint16>, one: uint8, colors: seq<int>, from: nat, len: nat, most: nat)
    requires 0 < most <= 0x7FFF && from + len == |colors| && BigEndian(words, colors)
    ensures Sends(Pieces(from, len, most, NextWords), words, one, BusBytes(colors[from..]))
    decreases len
  {
    if len > 0 {
      var count := if len < most then len else most;
      NextPiecesSend(words, one, colors, from + count, len - count, most);
      NextPieceThenRest(words, one, colors, from, count, Pieces(from + count, len - count, most, NextWords));
    }
  }

  lemma NextPieceThenRest(words: seq<uint16>, one: uint8, colors: seq<int>, from: nat, count: nat, rest: seq<Descriptor>)
    requires BigEndian(words, colors) && from + count <= |colors| && count <= 0x7FFF
    requires Sends(rest, words, one, BusBytes(colors[from + count..]))
    ensures Sends([Piece(from, count, NextWords)] + rest, words, one, BusBytes(colors[from..]))
  {
    var d, head, tail := Piece(from, count, NextWords), colors[from..from + count], colors[from + count..];
    EmitWords(d, words, one, head, from);
    SendsMore(d, rest, words, one, BusBytes(head), BusBytes(tail));
    assert colors[from..] == head + tail;
    BusConcat(head, tail);
  }

  lemma PieceSend(d: Descriptor, words: seq<uint16>, one: uint8, color: uint16, pixels: nat, mode: Reads)
    requires pixels <= 0x7FFF && d == Piece(0, pixels, mode) && Source(words, one, color, pixels, pixels, mode)
    ensures InMemory(d, words) && Emit(d, words, one) == BusBytes(Repeat(color, pixels))
  {
    if d.inc {
      EmitWords(d, words, one, Repeat(color, pixels), 0);
    } else {
      EmitOne(d, words, one, color, pixels);
    }
  }

  function Repeat(color: int, n: nat): (s: seq<int>)
    ensures |s| == n && forall i :: 0 <= i < n ==> s[i] == color
  {
    seq(n, _ => color)
  }

  function Swap(c: int): int {
    c % 256 * 256 + c / 256
  }

  lemma SwapBytes(c: int)
    requires 0 <= c < 0x1_0000
    ensures Swap(c) % 256 == c / 256 && Swap(c) / 256 == c % 256
  {
  }

  /** Sent from memory, a swapped word is its colour on the bus. */
  lemma EmitWordAt(d: Descriptor, words: seq<uint16>, one: uint8, colors: seq<int>, from: nat, i: nat)
    requires d.inc && d.end == 2 * (from + |colors|) && d.bytes == 2 * |colors| < 0x1_0000 && from + |colors| <= |words|
    requires i < d.bytes && words[from + i / 2] == Swap(colors[i / 2]) && 0 <= colors[i / 2] < 0x1_0000
    ensures |BusBytes(colors)| == d.bytes && Emit(d, words, one)[i] == BusBytes(colors)[i]
  {
    BusByteAt(colors, i);
    assert d.end - d.bytes + i == 2 * from + i;
    assert (2 * from + i) % 2 == i % 2 && (2 * from + i) / 2 == from + i / 2;
    SwapBytes(colors[i / 2]);
    assert Emit(d, words, one)[i] == MemoryByte(words, 2 * from + i);
  }

  lemma EmitWords(d: Descriptor, words: seq<uint16>, one: uint8, colors: seq<int>, from: nat)
    requires d.inc && d.end == 2 * (from + |colors|) && d.bytes == 2 * |colors| < 0x1_0000 && from + |colors| <= |words|
    requires forall k :: 0 <= k < |colors| ==> 0 <= colors[k] < 0x1_0000 && words[from + k] == Swap(colors[k])
    ensures Emit(d, words, one) == BusBytes(colors)
  {
    BusRoundTrip(colors);
    forall i | 0 <= i < d.bytes
      ensures Emit(d, words, one)[i] == BusBytes(colors)[i]
    {
      EmitWordAt(d, words, one, colors, from, i);
    }
  }

  /** A colour with two equal bytes can be sent one byte at a time. */
  lemma EmitOne(d: Descriptor, words: seq<uint16>, one: uint8, color: uint16, pixels: nat)
    requires !d.inc && d.bytes == 2 * pixels < 0x1_0000 && color / 256 == color % 256 == one
    ensures Emit(d, words, one) == BusBytes(Repeat(color, pixels))
  {
    BusRoundTrip(Repeat(color, pixels));
    forall i | 0 <= i < 2 * pixels
      ensures Emit(d, words, one)[i] == BusBytes(Repeat(color, pixels))[i]
    {
      BusByteAt(Repeat(color, pixels), i);
      assert Repeat(color, pixels)[i / 2] == color;
    }
  }

  // ------------------------------------------------------ how many are needed

  /** How many pieces of at most d make up n. */
  function CeilDiv(n: nat, d: nat): nat
    requires d > 0
  {
    if n == 0 then 0 else 1 + CeilDiv(n - if n < d then n else d, d)
  }

  /** The source rounds a division up. */
  lemma {:induction false} CeilDivIs(n: nat, d: nat)
    requires d > 0
    ensures CeilDiv(n, d) == (n + d - 1) / d
  {
    if n == 0 {
      DivUnique(d - 1, d, 0);
    } else if n < d {
      CeilDivIs(0, d);
      DivUnique(n + d - 1, d, 1);
    } else {
      CeilDivIs(n - d, d);
      var q := CeilDiv(n - d, d);
      assert n - 1 == q * d + (n - 1) % d;
      DivUnique(n + d - 1, d, q + 1);
    }
  }

  /** More pixels, or smaller pieces, never need fewer descriptors. */
  lemma {:induction false} CeilMono(m: nat, n: nat, d: nat, e: nat)
    requires m <= n && 0 < e <= d
    ensures CeilDiv(m, d) <= CeilDiv(n, e)
    decreases n
  {
    if m > 0 {
      CeilMono(m - (if m < d then m else d), n - (if n < e then n else e), d, e);
    }
  }
}
