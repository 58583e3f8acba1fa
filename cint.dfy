/** Machine integer types of the firmware and C's integer division operators.

    Dafny's `/` and `%` on `int` are Euclidean (the remainder is never
    negative); C's `/` truncates toward zero and its `%` takes the sign of
    the dividend. Every divisor in the modelled code is a positive constant,
    so the two operators are defined here for positive divisors only. */
module CInt {

  /** `uint8_t` / `byte` */
  type Byte = b: int | 0 <= b < 0x100

  /** `int` on the 32-bit target */
  type Int32 = x: int | -0x8000_0000 <= x < 0x8000_0000

  /** `uint32_t` */
  type UInt32 = x: int | 0 <= x < 0x1_0000_0000

  /** C's `a % d`: the remainder carries the sign of `a` and is smaller than `d`
      in magnitude; it is congruent to `a` modulo `d`. */
  function Rem(a: int, d: int): (r: int)
    requires d > 0
    ensures -d < r < d
    ensures a >= 0 ==> r >= 0
    ensures a <= 0 ==> r <= 0
    ensures r % d == a % d
  {
    if a >= 0 then a % d
    else
      var n := -a;
      NegativeMod(n, d);
      DivModUnique(n % d, d, 0, n % d);
      NegativeMod(n % d, d);
      -(n % d)
  }

  /** The Euclidean remainder of a negated number, from that of the number. */
  lemma NegativeMod(n: int, d: int)
    requires n >= 0 && d > 0
    ensures (-n) % d == if n % d == 0 then 0 else d - n % d
  {
    var q, m := n / d, n % d;
    if m == 0 {
      assert -n == (-q) * d + 0;
      DivModUnique(-n, d, -q, 0);
    } else {
      assert -n == (-q - 1) * d + (d - m);
      DivModUnique(-n, d, -q - 1, d - m);
    }
  }

  /** C's `a / d`: the quotient truncated toward zero, so that
      `a == Quot(a, d) * d + Rem(a, d)` as the C standard requires. */
  function Quot(a: int, d: int): (q: int)
    requires d > 0
    ensures q * d + Rem(a, d) == a
    ensures a >= 0 ==> q == a / d
    ensures a < 0 ==> q <= 0
  {
    if a >= 0 then a / d else -((-a) / d)
  }

  /** Euclidean division is determined by its defining equation: a quotient and a
      remainder in `[0, d)` that recompose `a` are `a / d` and `a % d`. */
  lemma DivModUnique(a: int, d: int, q: int, m: int)
    requires d > 0 && 0 <= m < d && a == q * d + m
    ensures a / d == q && a % d == m
  {
    var q', m' := a / d, a % d;
    var k := q - q';
    assert k * d == m' - m by {
      assert q * d - q' * d == k * d;
    }
    if k > 0 {
      MulAtLeast(k, d);
    } else if k < 0 {
      MulAtLeast(-k, d);
    }
  }

  /** Euclidean division by a positive divisor is monotone in the dividend. */
  lemma DivMonotone(a: int, b: int, d: int)
    requires 0 <= a <= b && d > 0
    ensures a / d <= b / d
  {
    var t := a % d + (b - a);
    assert t / d >= 0;
    assert b == (a / d + t / d) * d + t % d by {
      assert (a / d + t / d) * d == (a / d) * d + (t / d) * d;
    }
    DivModUnique(b, d, a / d + t / d, t % d);
  }

  /** Multiplying by a non-negative factor keeps the order. */
  lemma MulMonotone(a: int, b: int, c: int)
    requires a <= b && c >= 0
    ensures a * c <= b * c
  {
    assert b * c - a * c == (b - a) * c;
  }

  lemma MulAtLeast(x: int, d: int)
    requires x >= 1 && d > 0
    ensures x * d >= d
  {
  }
}
