/**
 * Unsigned 32-bit arithmetic as the C++ buffer performs it on its `uint32_t`
 * cursors, written over mathematical integers: subtraction and addition wrap
 * modulo 2^32, and `&` is the bitwise conjunction of two naturals.
 */
module Uint32 {

  const Modulus: int := 0x1_0000_0000

  /** The values of a `uint32_t`. */
  type u32 = x: int | 0 <= x < 0x1_0000_0000

  /** `a - b` on `uint32_t`: wraps around below zero. */
  function Sub(a: u32, b: u32): (r: u32)
    ensures b <= a ==> r == a - b
    ensures a < b ==> r == a - b + Modulus
  {
    (a - b) % Modulus
  }

  /** `a + b` on `uint32_t`: wraps around at 2^32. */
  function Add(a: u32, b: u32): (r: u32)
    ensures a + b < Modulus ==> r == a + b
    ensures Modulus <= a + b ==> r == a + b - Modulus
  {
    (a + b) % Modulus
  }

  /** `std::min` on two `uint32_t` values. */
  function Min(a: u32, b: u32): (r: u32)
    ensures r <= a && r <= b
    ensures r == a || r == b
  {
    if b < a then b else a
  }

  /** Wrapping subtraction undoes wrapping addition, and the other way round. */
  lemma AddSubInverse(a: u32, b: u32)
    ensures Sub(Add(a, b), b) == a
    ensures Add(Sub(a, b), b) == a
  {}

  /** The bitwise `&` of two naturals, bit by bit from the least significant one. */
  function BitAnd(a: nat, b: nat): (r: nat)
    ensures r <= a && r <= b
    decreases a
  {
    if a == 0 || b == 0 then 0
    else 2 * BitAnd(a / 2, b / 2) + (if a % 2 == 1 && b % 2 == 1 then 1 else 0)
  }

  /** 2 to the power `k`. */
  function Pow2(k: nat): (r: nat)
    ensures r >= 1
  {
    if k == 0 then 1 else 2 * Pow2(k - 1)
  }

  /** The powers of two a `uint32_t` can hold: 2^0 up to 2^31, as integers.
      The normaliser's `is_power_of_2` is modelled separately on 32-bit words
      (`PowerOfTwo.IsPowerOfTwo`), where its bit test is cheap to reason about;
      `PowerOfTwo.WordIsPow2` carries a word that passes it over to this notion,
      which the slot arithmetic of the buffer uses. */
  ghost predicate IsPow2(n: int) {
    exists k :: 0 <= k < 32 && n == Pow2(k)
  }

  /** Masking with `2^k - 1` keeps the low `k` bits of `p`: reduction modulo `2^k`. */
  lemma {:induction false} MaskIsRemainder(p: nat, k: nat)
    ensures BitAnd(p, Pow2(k) - 1) == p % Pow2(k)
  {
    if k == 0 {
      ModUnique(p, 1, p, 0);
    } else {
      var h := Pow2(k - 1);
      assert Pow2(k) == 2 * h;
      if p == 0 {
        ModUnique(p, 2 * h, 0, 0);
      } else {
        OddMaskStep(p, h);
        MaskIsRemainder(p / 2, k - 1);
        HalfRemainder(p, h);
      }
    }
  }

  /** Masking with the odd `2h - 1` keeps the last bit and masks the rest with `h - 1`. */
  lemma OddMaskStep(p: nat, h: nat)
    requires p > 0 && h > 0
    ensures BitAnd(p, 2 * h - 1) == 2 * BitAnd(p / 2, h - 1) + p % 2
  {
    ModUnique(2 * h - 1, 2, h - 1, 1);
    DivMod(p, 2);
  }

  /** `p mod 2h` from the remainder of `p / 2` modulo `h` and the last bit of `p`. */
  lemma HalfRemainder(p: nat, h: int)
    requires h > 0
    ensures 2 * ((p / 2) % h) + p % 2 == p % (2 * h)
  {
    var q, b := p / 2, p % 2;
    DivMod(q, h);
    var t, r := q / h, q % h;
    assert p == (2 * h) * t + (2 * r + b);
    ModUnique(p, 2 * h, t, 2 * r + b);
  }

  lemma {:induction false} Pow2Add(a: nat, b: nat)
    ensures Pow2(a + b) == Pow2(a) * Pow2(b)
  {
    if a > 0 {
      Pow2Add(a - 1, b);
      assert Pow2(a + b) == 2 * Pow2(a - 1 + b);
    }
  }

  lemma Pow2Of32()
    ensures Pow2(32) == Modulus
  {
    assert Pow2(4) == 16;
    Pow2Add(4, 4);
    Pow2Add(8, 8);
    Pow2Add(16, 16);
  }

  /** A power of two a `uint32_t` holds is at most 2^31. */
  lemma Pow2AtMostHalfModulus(n: int)
    requires IsPow2(n)
    ensures n <= 0x8000_0000
  {
    var k :| 0 <= k < 32 && n == Pow2(k);
    Pow2Of32();
    Pow2Add(k, 31 - k);
    assert Pow2(32) == 2 * Pow2(31);
    MulAtLeast(Pow2(k), Pow2(31 - k));
  }

  /** Reducing modulo 2^32 first does not change the remainder modulo a power of two. */
  lemma WrapKeepsRemainder(x: int, k: nat)
    requires k <= 32
    ensures (x % Modulus) % Pow2(k) == x % Pow2(k)
  {
    var s := Pow2(k);
    Pow2Of32();
    Pow2Add(k, 32 - k);
    var t := Pow2(32 - k);
    assert Modulus == s * t;
    DivMod(x, Modulus);
    var q, w := x / Modulus, x % Modulus;
    DivMod(w, s);
    var q', r := w / s, w % s;
    MulAssoc(s, t, q);
    assert x == s * (t * q) + s * q' + r;
    MulAdd(s, t * q, q');
    ModUnique(x, s, t * q + q', r);
  }

  lemma MulAssoc(a: int, b: int, c: int)
    ensures (a * b) * c == a * (b * c)
  {}

  lemma MulAdd(a: int, b: int, c: int)
    ensures a * b + a * c == a * (b + c)
  {}

  lemma MulAtLeast(m: int, k: int)
    requires m > 0 && k >= 1
    ensures m * k >= m
  {}

  lemma MulDiff(m: int, a: int, b: int)
    ensures m * a - m * b == m * (a - b)
  {}

  lemma DivMod(p: int, m: int)
    requires m > 0
    ensures p == m * (p / m) + p % m && 0 <= p % m < m
  {}

  /** Quotient and remainder are unique. */
  lemma ModUnique(p: int, m: int, t: int, r: int)
    requires m > 0 && 0 <= r < m && p == m * t + r
    ensures p % m == r && p / m == t
  {
    DivMod(p, m);
    var q := p / m;
    MulDiff(m, t, q);
    MulDiff(m, q, t);
    if t > q {
      MulAtLeast(m, t - q);
    } else if q > t {
      MulAtLeast(m, q - t);
    }
  }
}
