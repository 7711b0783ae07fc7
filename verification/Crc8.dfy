/** crc8 of the SHT31 driver, against polynomial division over GF(2): a byte's
    highest bit first, divisor x^8 + x^5 + x^4 + 1, register preset to 0xFF. */
module Crc8 {
  import opened Bytes

  // ------------------------------------------------ polynomials as bit strings

  /** Coefficients, highest power first. */
  type Poly = seq<bool>

  /** x^8 + x^5 + x^4 + 1. */
  const G: Poly := [true, false, false, true, true, false, false, false, true]

  function Zeros(n: nat): Poly {
    seq(n, _ => false)
  }

  function Xor(a: Poly, b: Poly): (c: Poly)
    requires |a| == |b|
    ensures |c| == |a|
  {
    seq(|a|, i requires 0 <= i < |a| => a[i] != b[i])
  }

  /** q times the divisor, by the shift-and-add of long multiplication. */
  function TimesG(q: Poly): (p: Poly)
    ensures |p| == |q| + 8
  {
    if q == [] then Zeros(8) else
    var n := |q| - 1;
    var p := TimesG(q[..n]) + [false];
    if q[n] then Xor(p, Zeros(n) + G) else p
  }

  // --------------------------------------------------- the division register

  function Step(reg: Poly, bit: bool): (reg': Poly)
    requires |reg| == 8
    ensures |reg'| == 8
  {
    var shifted := reg[1..] + [false];
    if reg[0] != bit then Xor(shifted, G[1..]) else shifted
  }

  /** Long division, one message bit at a time. */
  function Feed(reg: Poly, bits: Poly): (reg': Poly)
    requires |reg| == 8
    ensures |reg'| == 8
  {
    if bits == [] then reg else Step(Feed(reg, bits[..|bits| - 1]), bits[|bits| - 1])
  }

  function BitsOf(b: bv8): (bits: Poly)
    ensures |bits| == 8
  {
    seq(8, i requires 0 <= i < 8 => Bit(b, 7 - i))
  }

  function MessageBits(data: seq<bv8>): (bits: Poly)
    ensures |bits| == 8 * |data|
  {
    if data == [] then [] else MessageBits(data[..|data| - 1]) + BitsOf(data[|data| - 1])
  }

  /** The register after the whole message, from the preset 0xFF. */
  function Crc(data: seq<bv8>): (reg: Poly)
    ensures |reg| == 8
  {
    Feed(BitsOf(0xFF), MessageBits(data))
  }

  // ------------------------------------------------------------- the method

  const POLYNOMIAL: bv8 := 0x31

  /** The line inside both loops. */
  function Shift(crc: bv8): bv8 {
    if crc & 0x80 != 0 then (crc << 1) ^ POLYNOMIAL else crc << 1
  }

  lemma ShiftCases(crc: bv8, k: nat)
    requires k < 8
    ensures Bit(crc << 1, k) == (0 < k && Bit(crc, k - 1))
    ensures (crc & 0x80 != 0) == Bit(crc, 7)
  {
    ShiftBit(crc, k);
  }

  lemma DivisorBits(k: nat)
    requires k < 8
    ensures Bit(POLYNOMIAL, k) == G[8 - k]
  {
  }

  lemma ShiftBits(crc: bv8, shifted: bv8, k: nat)
    requires k < 8 && shifted == Shift(crc)
    ensures Bit(shifted, k) == ((0 < k && Bit(crc, k - 1)) != (Bit(crc, 7) && G[8 - k]))
  {
    ShiftCases(crc, k);
    DivisorBits(k);
    if crc & 0x80 != 0 {
      XorBit(crc << 1, POLYNOMIAL, shifted, k);
    }
  }

  /** The source shifts a whole byte in at once: after n shifts what is still to
      come of it rides along on the register. */
  ghost predicate Riding(crc: bv8, reg: Poly, bits: Poly, n: nat)
    requires |reg| == 8 && |bits| == 8 && n <= 8
  {
    forall k :: 0 <= k < 8 ==> BitsOf(crc)[k] == (Feed(reg, bits[..n])[k] != (n + k < 8 && bits[n + k]))
  }

  lemma FeedOne(reg: Poly, bits: Poly, n: nat)
    requires |reg| == 8 && n < |bits|
    ensures Feed(reg, bits[..n + 1]) == Step(Feed(reg, bits[..n]), bits[n])
  {
    assert bits[..n + 1][..n] == bits[..n];
  }

  lemma RideOn(crc: bv8, shifted: bv8, reg: Poly, bits: Poly, n: nat)
    requires |reg| == 8 && |bits| == 8 && n < 8 && Riding(crc, reg, bits, n) && shifted == Shift(crc)
    ensures Riding(shifted, reg, bits, n + 1)
  {
    FeedOne(reg, bits, n);
    var feed := Feed(reg, bits[..n]);
    forall k | 0 <= k < 8
      ensures BitsOf(shifted)[k] == (Step(feed, bits[n])[k] != (n + 1 + k < 8 && bits[n + 1 + k]))
    {
      ShiftBits(crc, shifted, 7 - k);
      assert BitsOf(crc)[0] == (feed[0] != bits[n]);
      assert k < 7 ==> BitsOf(crc)[k + 1] == (feed[k + 1] != (n + k + 1 < 8 && bits[n + k + 1]));
    }
  }

  lemma XorByte(a: bv8, b: bv8, c: bv8, k: nat)
    requires c == a ^ b && k < 8
    ensures BitsOf(c)[k] == (BitsOf(a)[k] != BitsOf(b)[k])
  {
    XorBit(a, b, c, 7 - k);
  }

  lemma RideStart(crc: bv8, byte: bv8, start: bv8)
    requires start == crc ^ byte
    ensures Riding(start, BitsOf(crc), BitsOf(byte), 0)
  {
    forall k | 0 <= k < 8
      ensures BitsOf(start)[k] == (BitsOf(crc)[k] != BitsOf(byte)[k])
    {
      XorByte(crc, byte, start, k);
    }
    assert BitsOf(byte)[..0] == [];
  }

  /** The inner loop: one byte of the message. */
  method FeedByte(crc0: bv8, byte: bv8) returns (crc: bv8)
    ensures BitsOf(crc) == Feed(BitsOf(crc0), BitsOf(byte))
  {
    ghost var bits := BitsOf(byte);
    crc := crc0 ^ byte;
    RideStart(crc0, byte, crc);
    var i := 8;
    while i != 0
      invariant 0 <= i <= 8 && Riding(crc, BitsOf(crc0), bits, 8 - i)
      decreases i
    {
      RideOn(crc, Shift(crc), BitsOf(crc0), bits, 8 - i);
      crc := Shift(crc);
      i := i - 1;
    }
    assert bits[..8] == bits;
  }

  /** n turns of the inner loop, as a value. */
  function Shifts(crc: bv8, n: nat): bv8 {
    if n == 0 then crc else Shift(Shifts(crc, n - 1))
  }

  lemma {:induction false} Rides(crc: bv8, byte: bv8, start: bv8, n: nat)
    requires start == crc ^ byte && n <= 8
    ensures Riding(Shifts(start, n), BitsOf(crc), BitsOf(byte), n)
  {
    if n == 0 {
      RideStart(crc, byte, start);
    } else {
      Rides(crc, byte, start, n - 1);
      RideOn(Shifts(start, n - 1), Shifts(start, n), BitsOf(crc), BitsOf(byte), n - 1);
    }
  }

  lemma ByteFed(crc: bv8, byte: bv8, start: bv8)
    requires start == crc ^ byte
    ensures Feed(BitsOf(crc), BitsOf(byte)) == BitsOf(Shifts(start, 8))
  {
    Rides(crc, byte, start, 8);
    assert BitsOf(byte)[..8] == BitsOf(byte);
  }

  /** Eight turns, one by one. */
  lemma EightShifts(a: bv8, b: bv8, c: bv8, d: bv8, e: bv8, f: bv8, g: bv8, h: bv8, i: bv8)
    requires b == Shift(a) && c == Shift(b) && d == Shift(c) && e == Shift(d)
    requires f == Shift(e) && g == Shift(f) && h == Shift(g) && i == Shift(h)
    ensures Shifts(a, 8) == i
  {
    assert Shifts(a, 1) == b;
    assert Shifts(a, 2) == c;
    assert Shifts(a, 3) == d;
    assert Shifts(a, 4) == e;
    assert Shifts(a, 5) == f;
    assert Shifts(a, 6) == g;
    assert Shifts(a, 7) == h;
  }

  /** The example the source gives. */
  lemma DocumentedVector()
    ensures Crc([0xBE, 0xEF]) == BitsOf(0x92)
  {
    EightShifts(0x41, 0x82, 0x35, 0x6A, 0xD4, 0x99, 0x03, 0x06, 0x0C);
    EightShifts(0xE3, 0xF7, 0xDF, 0x8F, 0x2F, 0x5E, 0xBC, 0x49, 0x92);
    ByteFed(0xFF, 0xBE, 0x41);
    ByteFed(0x0C, 0xEF, 0xE3);
    var data: seq<bv8> := [0xBE, 0xEF];
    assert data[..1] == [0xBE] && data[..1][..0] == [];
    FeedConcat(BitsOf(0xFF), BitsOf(0xBE), BitsOf(0xEF));
    assert MessageBits(data[..1]) == [] + BitsOf(0xBE) == BitsOf(0xBE);
    assert MessageBits(data) == BitsOf(0xBE) + BitsOf(0xEF);
  }

  /** crc8 leaves the remainder of the message. */
  method Crc8(data: seq<bv8>) returns (crc: bv8)
    ensures BitsOf(crc) == Crc(data)
    ensures data == [0xBE, 0xEF] ==> crc == 0x92
  {
    crc := 0xFF;
    var j, n := |data|, 0;
    while j != 0
      invariant 0 <= n && 0 <= j && n + j == |data|
      invariant BitsOf(crc) == Crc(data[..n])
      decreases j
    {
      crc := FeedByte(crc, data[n]);
      FeedConcat(BitsOf(0xFF), MessageBits(data[..n]), BitsOf(data[n]));
      assert data[..n + 1][..n] == data[..n];
      n := n + 1;
      j := j - 1;
    }
    assert data[..|data|] == data;
    if data == [0xBE, 0xEF] {
      DocumentedVector();
      BitsInjective(crc, 0x92);
    }
  }

  lemma {:induction false} FeedConcat(reg: Poly, a: Poly, b: Poly)
    requires |reg| == 8
    ensures Feed(reg, a + b) == Feed(Feed(reg, a), b)
  {
    if b == [] {
      assert a + b == a;
    } else {
      assert (a + b)[..|a + b| - 1] == a + b[..|b| - 1];
      FeedConcat(reg, a, b[..|b| - 1]);
    }
  }

  // ------------------------------------------------------------ linearity

  lemma {:induction false} FeedLinear(r: Poly, s: Poly, a: Poly, b: Poly)
    requires |r| == |s| == 8 && |a| == |b|
    ensures Feed(Xor(r, s), Xor(a, b)) == Xor(Feed(r, a), Feed(s, b))
  {
    if a != [] {
      var n := |a| - 1;
      assert Xor(a, b)[..n] == Xor(a[..n], b[..n]);
      FeedLinear(r, s, a[..n], b[..n]);
      StepLinear(Feed(r, a[..n]), Feed(s, b[..n]), a[n], b[n]);
    }
  }

  lemma StepLinear(r: Poly, s: Poly, a: bool, b: bool)
    requires |r| == |s| == 8
    ensures Step(Xor(r, s), a != b) == Xor(Step(r, a), Step(s, b))
  {
  }

  /** The register depends on where two messages differ, and on nothing else. */
  lemma CrcDifference(a: seq<bv8>, b: seq<bv8>)
    requires |a| == |b|
    ensures Xor(Crc(a), Crc(b)) == Feed(Zeros(8), Xor(MessageBits(a), MessageBits(b)))
    ensures Crc(a) == Crc(b) <==> Feed(Zeros(8), Xor(MessageBits(a), MessageBits(b))) == Zeros(8)
  {
    var preset := BitsOf(0xFF);
    assert Xor(preset, preset) == Zeros(8);
    FeedLinear(preset, preset, MessageBits(a), MessageBits(b));
    XorNothing(Crc(a), Crc(b));
  }

  lemma XorNothing(a: Poly, b: Poly)
    requires |a| == |b|
    ensures Xor(a, b) == Zeros(|a|) <==> a == b
  {
    if Xor(a, b) == Zeros(|a|) {
      forall i | 0 <= i < |a|
        ensures a[i] == b[i]
      {
        assert Xor(a, b)[i] == Zeros(|a|)[i];
      }
    }
  }

  // ------------------------------------------------------ the remainder theorem

  /** The quotient bits of the long division. */
  function Quotient(bits: Poly): (q: Poly)
    ensures |q| == |bits|
  {
    if bits == [] then [] else
    var n := |bits| - 1;
    Quotient(bits[..n]) + [Feed(Zeros(8), bits[..n])[0] != bits[n]]
  }

  /** bits * x^8 == quotient * G + register. */
  lemma {:induction false} Division(bits: Poly)
    ensures bits + Zeros(8) == Xor(TimesG(Quotient(bits)), Zeros(|bits|) + Feed(Zeros(8), bits))
  {
    if bits != [] {
      var n := |bits| - 1;
      Division(bits[..n]);
      DivisionStep(bits[..n], bits[n], Quotient(bits[..n]), Feed(Zeros(8), bits[..n]));
      assert bits == bits[..n] + [bits[n]];
    }
  }

  lemma TimesGAppend(q: Poly, c: bool)
    ensures var p := TimesG(q) + [false];
      TimesG(q + [c]) == if c then Xor(p, Zeros(|q|) + G) else p
  {
    assert (q + [c])[..|q|] == q;
  }

  lemma DivisionStep(head: Poly, bit: bool, q: Poly, reg: Poly)
    requires |q| == |head| && |reg| == 8
    requires head + Zeros(8) == Xor(TimesG(q), Zeros(|head|) + reg)
    ensures head + [bit] + Zeros(8) == Xor(TimesG(q + [reg[0] != bit]), Zeros(|head| + 1) + Step(reg, bit))
  {
    var left, product, rest := head + [bit] + Zeros(8), TimesG(q + [reg[0] != bit]), Zeros(|head| + 1) + Step(reg, bit);
    assert |left| == |product| == |rest| == |head| + 9;
    forall i | 0 <= i < |left|
      ensures left[i] == (product[i] != rest[i])
    {
      DivisionDigit(head, bit, q, reg, i);
    }
    assert left == Xor(product, rest);
  }

  lemma DivisionDigit(head: Poly, bit: bool, q: Poly, reg: Poly, i: nat)
    requires |q| == |head| && |reg| == 8 && i < |head| + 9
    requires head + Zeros(8) == Xor(TimesG(q), Zeros(|head|) + reg)
    ensures (head + [bit] + Zeros(8))[i] == (TimesG(q + [reg[0] != bit])[i] != (Zeros(|head| + 1) + Step(reg, bit))[i])
  {
    var p, fire := TimesG(q), reg[0] != bit;
    TimesGAppend(q, fire);
    if i < |head| + 8 {
      assert (head + Zeros(8))[i] == (p[i] != (Zeros(|head|) + reg)[i]);
    }
    assert TimesG(q + [fire])[i] == ((p + [false])[i] != (fire && (Zeros(|head|) + G)[i]));
    DivisionAt(head, bit, p, reg, i);
  }

  /** The digits of one step of the long division. */
  lemma DivisionAt(head: Poly, bit: bool, p: Poly, reg: Poly, i: nat)
    requires |reg| == 8 && |p| == |head| + 8 && i < |head| + 9
    requires i < |head| + 8 ==> (head + Zeros(8))[i] == (p[i] != (Zeros(|head|) + reg)[i])
    ensures (head + [bit] + Zeros(8))[i] ==
            (((p + [false])[i] != ((reg[0] != bit) && (Zeros(|head|) + G)[i])) != (Zeros(|head| + 1) + Step(reg, bit))[i])
  {
    var m := |head|;
    assert (head + [bit] + Zeros(8))[i] == if i < m then head[i] else i == m && bit;
    if i < m {
      assert (p + [false])[i] == p[i];
    } else if i == m {
      assert (p + [false])[i] == p[i] == reg[0];
    } else {
      assert (p + [false])[i] == (i < m + 8 && reg[i - m]);
      StepAt(reg, bit, i - m - 1);
      assert (Zeros(m + 1) + Step(reg, bit))[i] == Step(reg, bit)[i - m - 1];
    }
  }

  lemma StepAt(reg: Poly, bit: bool, k: int)
    requires |reg| == 8 && k < 8
    ensures 0 <= k ==> Step(reg, bit)[k] == ((k < 7 && reg[k + 1]) != ((reg[0] != bit) && G[k + 1]))
  {
  }

  lemma {:induction false} FeedZeros(n: nat)
    ensures Feed(Zeros(8), Zeros(n)) == Zeros(8)
  {
    if n > 0 {
      assert Zeros(n)[..n - 1] == Zeros(n - 1);
      FeedZeros(n - 1);
    }
  }

  /** Feeding the register its own bits empties it. */
  lemma {:induction false} FeedOwn(reg: Poly, n: nat)
    requires |reg| == 8 && n <= 8
    ensures Feed(reg, reg[..n]) == reg[n..] + Zeros(n)
  {
    if n > 0 {
      FeedOwn(reg, n - 1);
      FeedOne(reg, reg, n - 1);
    } else {
      assert reg[0..] + Zeros(0) == reg;
    }
  }

  lemma FeedG()
    ensures Feed(Zeros(8), G) == Zeros(8)
  {
    var rest := G[1..];
    assert G == [true] + rest;
    FeedConcat(Zeros(8), [true], rest);
    assert [true][..0] == [];
    assert Feed(Zeros(8), [true]) == Step(Zeros(8), true);
    assert Step(Zeros(8), true) == rest;
    FeedOwn(rest, 8);
    assert rest[..8] == rest;
    assert rest[8..] + Zeros(8) == Zeros(8);
  }

  function Ones(n: nat): Poly {
    seq(n, _ => true)
  }

  lemma PresetIsOnes()
    ensures BitsOf(0xFF) == Ones(8)
  {
    forall i | 0 <= i < 8
      ensures BitsOf(0xFF)[i]
    {
      AllBits(7 - i);
    }
  }

  /** What the preset does: the remainder is that of the message with its first
      eight bits complemented, divided from an empty register. */
  lemma PresetComplements(data: seq<bv8>)
    requires data != []
    ensures Crc(data) == Feed(Zeros(8), Xor(MessageBits(data), Ones(8) + Zeros(8 * |data| - 8)))
  {
    PresetIsOnes();
    StartComplements(MessageBits(data), Ones(8) + Zeros(8 * |data| - 8));
  }

  lemma StartComplements(m: Poly, c: Poly)
    requires |m| >= 8 && c == Ones(8) + Zeros(|m| - 8)
    ensures Feed(Ones(8), m) == Feed(Zeros(8), Xor(m, c))
  {
    var ones := Ones(8);
    OnesCancel(|m| - 8);
    FeedLinear(ones, ones, m, c);
    OnesVanish();
    XorZeros(Feed(ones, m));
  }

  lemma OnesVanish()
    ensures Xor(Ones(8), Ones(8)) == Zeros(8)
  {
  }

  lemma OnesCancel(n: nat)
    ensures Feed(Ones(8), Ones(8) + Zeros(n)) == Zeros(8)
  {
    var ones := Ones(8);
    FeedOwn(ones, 8);
    assert ones[..8] == ones && ones[8..] + Zeros(8) == Zeros(8);
    FeedConcat(ones, ones, Zeros(n));
    FeedZeros(n);
  }

  lemma XorZeros(a: Poly)
    ensures Xor(a, Zeros(|a|)) == a
  {
  }

  /** A message followed by its own CRC leaves the register empty. */
  lemma OwnCrc(data: seq<bv8>, crc: bv8)
    requires BitsOf(crc) == Crc(data)
    ensures Crc(data + [crc]) == Zeros(8)
  {
    var reg := Crc(data);
    assert (data + [crc])[..|data|] == data;
    FeedConcat(BitsOf(0xFF), MessageBits(data), reg);
    FeedOwn(reg, 8);
    assert reg[..8] == reg && reg[8..] + Zeros(8) == Zeros(8);
  }

  /** A multiple of G leaves no remainder. */
  lemma {:induction false} MultipleLeavesNothing(q: Poly)
    ensures Feed(Zeros(8), TimesG(q)) == Zeros(8)
  {
    if q == [] {
      FeedZeros(8);
    } else {
      var n := |q| - 1;
      var p := TimesG(q[..n]) + [false];
      MultipleLeavesNothing(q[..n]);
      FeedConcat(Zeros(8), TimesG(q[..n]), [false]);
      assert Feed(Zeros(8), [false]) == Zeros(8);
      if q[n] {
        FeedZeros(n);
        FeedConcat(Zeros(8), Zeros(n), G);
        FeedG();
        FeedLinear(Zeros(8), Zeros(8), p, Zeros(n) + G);
        assert Xor(Zeros(8), Zeros(8)) == Zeros(8);
      }
    }
  }

  /** G ends in a one, so a multiple of G that ends in zeros is a shifted one. */
  lemma {:induction false} StripZeros(q: Poly, d: Poly, m: nat)
    requires TimesG(q) == d + Zeros(m) && m <= |q|
    ensures TimesG(q[..|q| - m]) == d
  {
    if m == 0 {
      assert q[..|q|] == q && d + Zeros(0) == d;
    } else {
      var n := |q| - 1;
      assert q == q[..n] + [q[n]];
      TimesGAppend(q[..n], q[n]);
      assert TimesG(q)[n + 8] == q[n];
      assert (d + Zeros(m))[n + 8] == false;
      assert TimesG(q[..n]) == TimesG(q)[..n + 8] == (d + Zeros(m))[..n + 8] == d + Zeros(m - 1);
      StripZeros(q[..n], d, m - 1);
      assert q[..n][..n - (m - 1)] == q[..|q| - m];
    }
  }

  predicate IsMultiple(d: Poly, q: Poly) {
    |d| == |q| + 8 && d == TimesG(q)
  }

  /** A bit string leaves no remainder exactly when it is a multiple of G. */
  lemma NoRemainder(d: Poly)
    requires |d| >= 8
    ensures Feed(Zeros(8), d) == Zeros(8) <==> exists q :: IsMultiple(d, q)
  {
    if Feed(Zeros(8), d) == Zeros(8) {
      var q := Quotient(d);
      Division(d);
      assert Zeros(|d|) + Zeros(8) == Zeros(|d| + 8);
      assert Xor(TimesG(q), Zeros(|d| + 8)) == TimesG(q);
      StripZeros(q, d, 8);
      assert IsMultiple(d, q[..|q| - 8]);
    }
    if q :| IsMultiple(d, q) {
      MultipleLeavesNothing(q);
    }
  }

  // ------------------------------------------------------------- detection

  /** Exactly which changes to a message crc8 misses: those that add a multiple
      of the generator polynomial. */
  lemma UndetectedIffMultiple(a: seq<bv8>, b: seq<bv8>)
    requires |a| == |b| > 0
    ensures Crc(a) == Crc(b) <==> exists q :: IsMultiple(Xor(MessageBits(a), MessageBits(b)), q)
  {
    CrcDifference(a, b);
    NoRemainder(Xor(MessageBits(a), MessageBits(b)));
  }

  lemma {:induction false} ZerosKeep(reg: Poly, n: nat)
    requires |reg| == 8
    ensures Feed(reg, Zeros(n)) == Zeros(8) ==> reg == Zeros(8)
  {
    if n > 0 {
      assert Zeros(n)[..n - 1] == Zeros(n - 1);
      ZerosKeep(reg, n - 1);
      OnlyZeroVanishes(Feed(reg, Zeros(n - 1)));
    }
  }

  lemma OnlyZeroVanishes(reg: Poly)
    requires |reg| == 8
    ensures Step(reg, false) == Zeros(8) ==> reg == Zeros(8)
  {
    var next := Step(reg, false);
    if next == Zeros(8) {
      assert next[7] == Zeros(8)[7] == false;
      assert next[7] == reg[0];
      assert next == reg[1..] + [false];
      forall i | 0 <= i < 8
        ensures reg[i] == Zeros(8)[i]
      {
        if i > 0 {
          assert next[i - 1] == Zeros(8)[i - 1];
        }
      }
    }
  }

  /** Unchanged bits before and after a burst do not hide it. */
  lemma WindowMatters(s: nat, w: Poly, t: nat)
    ensures Feed(Zeros(8), Zeros(s) + w + Zeros(t)) == Zeros(8) <==> Feed(Zeros(8), w) == Zeros(8)
  {
    FeedConcat(Zeros(8), Zeros(s) + w, Zeros(t));
    FeedConcat(Zeros(8), Zeros(s), w);
    FeedZeros(s);
    ZerosKeep(Feed(Zeros(8), w), t);
    FeedZeros(t);
  }

  lemma {:induction false} MessageInjective(a: seq<bv8>, b: seq<bv8>)
    requires |a| == |b| && MessageBits(a) == MessageBits(b)
    ensures a == b
  {
    if a != [] {
      var n := |a| - 1;
      LastByte(a);
      LastByte(b);
      MessageInjective(a[..n], b[..n]);
      BitsInjective(a[n], b[n]);
      assert a == a[..n] + [a[n]] && b == b[..n] + [b[n]];
    }
  }

  lemma LastByte(a: seq<bv8>)
    requires a != []
    ensures var n := |a| - 1; MessageBits(a)[..8 * n] == MessageBits(a[..n]) && MessageBits(a)[8 * n..] == BitsOf(a[n])
  {
  }

  lemma BitsInjective(a: bv8, b: bv8)
    requires BitsOf(a) == BitsOf(b)
    ensures a == b
  {
    forall k | 0 <= k < 8
      ensures Bit(a, k) == Bit(b, k)
    {
      assert BitsOf(a)[7 - k] == BitsOf(b)[7 - k];
    }
    SameBits(a, b);
  }

  /** The bits in which two messages differ. */
  function Difference(a: seq<bv8>, b: seq<bv8>): (d: Poly)
    requires |a| == |b|
    ensures |d| == 8 * |a|
  {
    Xor(MessageBits(a), MessageBits(b))
  }

  predicate Within(d: Poly, s: nat, n: nat) {
    forall i :: 0 <= i < |d| && d[i] ==> s <= i < s + n
  }

  /** A difference confined to a window is that window, padded. */
  lemma Windowed(d: Poly, s: nat, n: nat)
    requires Within(d, s, n) && s + n <= |d|
    ensures d == Zeros(s) + d[s..s + n] + Zeros(|d| - s - n)
  {
  }

  /** Whatever surrounds it, only the window decides. */
  lemma WindowDecides(d: Poly, s: nat, n: nat)
    requires Within(d, s, n) && s + n <= |d|
    ensures Feed(Zeros(8), d) == Zeros(8) <==> Feed(Zeros(8), d[s..s + n]) == Zeros(8)
  {
    Windowed(d, s, n);
    WindowMatters(s, d[s..s + n], |d| - s - n);
  }

  /** Eight bits leave room for no multiple of G but nothing. */
  lemma EightBits(w: Poly)
    requires |w| == 8 && Feed(Zeros(8), w) == Zeros(8)
    ensures w == Zeros(8)
  {
    NoRemainder(w);
    var q :| IsMultiple(w, q);
    assert q == [];
  }

  lemma ShortBurst(d: Poly, s: nat)
    requires s + 8 <= |d| && Within(d, s, 8) && Feed(Zeros(8), d) == Zeros(8)
    ensures d == Zeros(|d|)
  {
    WindowDecides(d, s, 8);
    EightBits(d[s..s + 8]);
    ZeroWindow(d, s, 8);
  }

  lemma SomeBit(a: seq<bv8>, b: seq<bv8>)
    requires |a| == |b| && a != b
    ensures Difference(a, b) != Zeros(8 * |a|)
  {
    if Difference(a, b) == Zeros(8 * |a|) {
      XorNothing(MessageBits(a), MessageBits(b));
      MessageInjective(a, b);
    }
  }

  /** Any change within eight consecutive bits, wherever it falls, is detected. */
  lemma BurstDetected(a: seq<bv8>, b: seq<bv8>, s: nat)
    requires |a| == |b| && a != b && Within(Difference(a, b), s, 8)
    ensures Crc(a) != Crc(b)
  {
    var d := Difference(a, b);
    CrcDifference(a, b);
    if Crc(a) == Crc(b) {
      ShortBurst(d, if s + 8 <= |d| then s else |d| - 8);
      SomeBit(a, b);
    }
  }

  /** One bit more and there is exactly one change that is missed: the generator
      polynomial itself. */
  lemma NineBitBurst(a: seq<bv8>, b: seq<bv8>, s: nat)
    requires |a| == |b| && a != b && s + 9 <= 8 * |a| && Within(Difference(a, b), s, 9)
    ensures Crc(a) == Crc(b) <==> Difference(a, b)[s..s + 9] == G
  {
    var d := Difference(a, b);
    CrcDifference(a, b);
    WindowDecides(d, s, 9);
    NineBits(d[s..s + 9]);
    SomeBit(a, b);
    Windowed(d, s, 9);
    ZeroWindow(d, s, 9);
  }

  lemma ZeroWindow(d: Poly, s: nat, n: nat)
    requires Within(d, s, n) && s + n <= |d|
    ensures d[s..s + n] == Zeros(n) ==> d == Zeros(|d|)
  {
    if d[s..s + n] == Zeros(n) {
      Windowed(d, s, n);
      assert Zeros(s) + Zeros(n) + Zeros(|d| - s - n) == Zeros(|d|);
    }
  }

  /** The multiples of G that fit in nine bits. */
  lemma NineBits(w: Poly)
    requires |w| == 9
    ensures Feed(Zeros(8), w) == Zeros(8) <==> w == G || w == Zeros(9)
  {
    NoRemainder(w);
    TimesGOne();
    if Feed(Zeros(8), w) == Zeros(8) {
      var q :| IsMultiple(w, q);
      assert q == [q[0]];
    }
    if w == G {
      assert IsMultiple(w, [true]);
    }
    if w == Zeros(9) {
      assert IsMultiple(w, [false]);
    }
  }

  lemma TimesGOne()
    ensures TimesG([true]) == G && TimesG([false]) == Zeros(9)
  {
    TimesGAppend([], true);
    TimesGAppend([], false);
    assert [] + [true] == [true] && [] + [false] == [false];
    assert TimesG([]) + [false] == Zeros(9);
  }
}
