/** Bits of a frame buffer byte, and the three ways of drawing into one. */
module Bytes {

  const BLACK := 0
  const WHITE := 1
  const INVERSE := 2

  /** 1 << k. */
  function Mask(k: nat): bv8
    requires k < 8
  {
    if k == 0 then 1 else if k == 1 then 2 else if k == 2 then 4 else if k == 3 then 8
    else if k == 4 then 16 else if k == 5 then 32 else if k == 6 then 64 else 128
  }

  /** Both drivers write the mask as a shift, from either end of the byte. */
  lemma MaskIsShift(k: nat)
    requires k < 8
    ensures Mask(k) == (1 as bv8) << k
    ensures Mask(7 - k) == (0x80 as bv8) >> k
  {
  }

  predicate Under(b: bv8, m: bv8) {
    b & m != 0
  }

  predicate Bit(b: bv8, k: nat)
    requires k < 8
  {
    Under(b, Mask(k))
  }

  /** A mask of one bit; under such a mask the solver needs no shift count. */
  predicate OneBit(m: bv8) {
    m == 1 || m == 2 || m == 4 || m == 8 || m == 16 || m == 32 || m == 64 || m == 128
  }

  lemma MaskIsOneBit(k: nat)
    requires k < 8
    ensures OneBit(Mask(k))
  {
  }

  /** What a colour does to one pixel. */
  predicate Paint(color: int, lit: bool) {
    if color == INVERSE then !lit else color == WHITE
  }

  /** What `|=`, `&= ~` and `^=` do to a byte under a mask. */
  function Stamp(b: bv8, mask: bv8, color: int): bv8 {
    if color == WHITE then b | mask else if color == BLACK then b & !mask
    else if color == INVERSE then b ^ mask else b
  }

  lemma OrUnder(a: bv8, b: bv8, m: bv8)
    requires OneBit(m)
    ensures Under(a | b, m) == (Under(a, m) || Under(b, m))
  {
  }

  lemma AndUnder(a: bv8, b: bv8, m: bv8)
    requires OneBit(m)
    ensures Under(a & b, m) == (Under(a, m) && Under(b, m))
  {
  }

  lemma AndNotUnder(a: bv8, b: bv8, m: bv8)
    requires OneBit(m)
    ensures Under(a & !b, m) == (Under(a, m) && !Under(b, m))
  {
  }

  lemma XorUnder(a: bv8, b: bv8, m: bv8)
    requires OneBit(m)
    ensures Under(a ^ b, m) == (Under(a, m) != Under(b, m))
  {
  }

  lemma OrBit(a: bv8, b: bv8, k: nat)
    requires k < 8
    ensures Bit(a | b, k) == (Bit(a, k) || Bit(b, k))
  {
    MaskIsOneBit(k);
    OrUnder(a, b, Mask(k));
  }

  lemma AndBit(a: bv8, b: bv8, k: nat)
    requires k < 8
    ensures Bit(a & b, k) == (Bit(a, k) && Bit(b, k))
  {
    MaskIsOneBit(k);
    AndUnder(a, b, Mask(k));
  }

  lemma XorBit(a: bv8, b: bv8, c: bv8, k: nat)
    requires k < 8 && c == a ^ b
    ensures Bit(c, k) == (Bit(a, k) != Bit(b, k))
  {
    MaskIsOneBit(k);
    XorUnder(a, b, Mask(k));
  }

  lemma MaskBit(j: nat, k: nat)
    requires j < 8 && k < 8
    ensures Bit(Mask(j), k) <==> j == k
  {
  }

  lemma StampWhite(b: bv8, mask: bv8, m: bv8)
    requires OneBit(m)
    ensures Under(Stamp(b, mask, WHITE), m) == if Under(mask, m) then Paint(WHITE, Under(b, m)) else Under(b, m)
  {
    OrUnder(b, mask, m);
  }

  lemma StampBlack(b: bv8, mask: bv8, m: bv8)
    requires OneBit(m)
    ensures Under(Stamp(b, mask, BLACK), m) == if Under(mask, m) then Paint(BLACK, Under(b, m)) else Under(b, m)
  {
    AndNotUnder(b, mask, m);
  }

  lemma StampInverse(b: bv8, mask: bv8, m: bv8)
    requires OneBit(m)
    ensures Under(Stamp(b, mask, INVERSE), m) == if Under(mask, m) then Paint(INVERSE, Under(b, m)) else Under(b, m)
  {
    XorUnder(b, mask, m);
  }

  lemma StampUnder(b: bv8, mask: bv8, color: int, m: bv8)
    requires OneBit(m) && 0 <= color <= 2
    ensures Under(Stamp(b, mask, color), m) == if Under(mask, m) then Paint(color, Under(b, m)) else Under(b, m)
  {
    if color == WHITE {
      StampWhite(b, mask, m);
    } else if color == BLACK {
      StampBlack(b, mask, m);
    } else {
      StampInverse(b, mask, m);
    }
  }

  lemma StampBit(b: bv8, mask: bv8, color: int, k: nat)
    requires k < 8 && 0 <= color <= 2
    ensures Bit(Stamp(b, mask, color), k) == if Bit(mask, k) then Paint(color, Bit(b, k)) else Bit(b, k)
  {
    MaskIsOneBit(k);
    StampUnder(b, mask, color, Mask(k));
  }

  lemma AllBits(k: nat)
    requires k < 8
    ensures Bit(0xFF, k)
  {
  }

  /** Overwriting a byte is drawing all its bits. */
  lemma WholeByte(b: bv8, color: int)
    ensures color == WHITE ==> Stamp(b, 0xFF, color) == 0xFF
    ensures color == BLACK ==> Stamp(b, 0xFF, color) == 0
    ensures color == INVERSE ==> Stamp(b, 0xFF, color) == b ^ 0xFF
  {
  }

  lemma SameBits(a: bv8, b: bv8)
    requires forall k :: 0 <= k < 8 ==> Bit(a, k) == Bit(b, k)
    ensures a == b
  {
    assert Bit(a, 0) == Bit(b, 0) && Bit(a, 1) == Bit(b, 1) && Bit(a, 2) == Bit(b, 2) && Bit(a, 3) == Bit(b, 3);
    assert Bit(a, 4) == Bit(b, 4) && Bit(a, 5) == Bit(b, 5) && Bit(a, 6) == Bit(b, 6) && Bit(a, 7) == Bit(b, 7);
  }

  /** A byte shifted left s times. */
  predicate Shifted(byte: bv8, whole: bv8, s: int) {
    s >= 0 && forall k :: 0 <= k < 8 ==> Bit(byte, k) == (s <= k && Bit(whole, k - s))
  }

  lemma ShiftBit(b: bv8, k: nat)
    requires k < 8
    ensures Bit(b << 1, k) == (0 < k && Bit(b, k - 1))
  {
  }

  lemma ShiftOn(byte: bv8, whole: bv8, s: nat, next: bv8)
    requires Shifted(byte, whole, s) && next == byte << 1
    ensures Shifted(next, whole, s + 1)
  {
    forall k | 0 <= k < 8
      ensures Bit(next, k) == (s + 1 <= k && Bit(whole, k - s - 1))
    {
      ShiftBit(byte, k);
    }
  }
}
