/** The C integer types the firmware stores its values in. An expression is
    computed in `int`, as C promotes it, and checked against the narrow type
    where the source assigns it, so every verified assignment below is also a
    proof that nothing wraps; `Narrow` is written where something may. */
module CInts {
  type int16 = x: int | -0x8000 <= x < 0x8000
  type int32 = x: int | -0x8000_0000 <= x < 0x8000_0000
  type uint8 = x: int | 0 <= x < 0x100
  type uint16 = x: int | 0 <= x < 0x1_0000
  type uint32 = x: int | 0 <= x < 0x1_0000_0000

  /** An int assigned to an int16_t wraps round. */
  function Narrow(a: int): int16
    requires -0x1_0000 <= a < 0x1_0000
  {
    if a < -0x8000 then a + 0x1_0000 else if 0x8000 <= a then a - 0x1_0000 else a
  }

  function Abs(a: int): nat {
    if a < 0 then -a else a
  }

  function Min(a: int, b: int): int {
    if a < b then a else b
  }

  function Max(a: int, b: int): int {
    if a < b then b else a
  }

  /** C's integer division, which truncates toward zero. */
  function Quot(a: int, b: int): int
    requires b > 0
  {
    if a < 0 then -((-a) / b) else a / b
  }

  /** Repeated addition, which is what an error accumulator computes; the
      solver unfolds it one step at a time instead of multiplying. */
  function Times(n: nat, d: int): int {
    if n == 0 then 0 else Times(n - 1, d) + d
  }

  lemma {:induction false} TimesIsProduct(n: nat, d: int)
    ensures Times(n, d) == n * d == d * n
  {
    if n > 0 {
      TimesIsProduct(n - 1, d);
      assert n * d == (n - 1) * d + d;
    }
  }

  /** Division is the only q with a remainder in 0..b-1. */
  lemma DivUnique(a: int, b: int, q: int)
    requires b > 0 && q * b <= a < q * b + b
    ensures a / b == q
  {
    var d := a / b;
    assert a == d * b + a % b;
    if d > q {
      ProductMono(q + 1, d, b);
    }
    if d < q {
      ProductMono(d + 1, q, b);
    }
  }

  lemma ProductMono(a: int, b: int, n: int)
    requires a <= b && 0 <= n
    ensures a * n <= b * n
  {
    assert (b - a) * n == b * n - a * n;
  }
}
