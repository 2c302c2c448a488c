/**
 * The capacity normaliser of the buffer, on 32-bit words exactly as the C++
 * helpers compute it: `is_power_of_2`, `hightest_one_bit` and
 * `roundup_pow_of_two`.
 */
module PowerOfTwo {
  import opened Uint32

  /** The word with only bit `k` set, `1 << k`. */
  function Bit(k: nat): (r: bv32)
    requires k < 32
  {
    1 << k
  }

  /** `is_power_of_2`: nonzero, and clearing the lowest set bit leaves nothing. */
  predicate IsPowerOfTwo(num: bv32): (r: bool)
    ensures r <==> InWordTable(num)
  {
    num != 0 && num & (num - 1) == 0
  }

  /** Every single-bit word passes `is_power_of_2`. */
  lemma BitIsPowerOfTwo()
    ensures forall k :: 0 <= k < 32 ==> IsPowerOfTwo(Bit(k))
  {
    forall k | 0 <= k < 32 ensures IsPowerOfTwo(Bit(k)) {
      SingleBit(k);
    }
  }

  lemma SingleBit(k: nat)
    requires k < 32
    ensures IsPowerOfTwo(Bit(k))
  {}

  /** The 32 single-bit words, written out. */
  predicate InWordTable(num: bv32) {
    num == 1 || num == 2 || num == 4 || num == 8 || num == 0x10 || num == 0x20 || num == 0x40 || num == 0x80 ||
    num == 0x100 || num == 0x200 || num == 0x400 || num == 0x800 ||
    num == 0x1000 || num == 0x2000 || num == 0x4000 || num == 0x8000 ||
    num == 0x1_0000 || num == 0x2_0000 || num == 0x4_0000 || num == 0x8_0000 ||
    num == 0x10_0000 || num == 0x20_0000 || num == 0x40_0000 || num == 0x80_0000 ||
    num == 0x100_0000 || num == 0x200_0000 || num == 0x400_0000 || num == 0x800_0000 ||
    num == 0x1000_0000 || num == 0x2000_0000 || num == 0x4000_0000 || num == 0x8000_0000
  }

  /** `1 << k` for each `k < 32`, as the literal words of `InWordTable`. */
  lemma BitTable()
    ensures Bit(0) == 1 && Bit(1) == 2 && Bit(2) == 4 && Bit(3) == 8
    ensures Bit(4) == 0x10 && Bit(5) == 0x20 && Bit(6) == 0x40 && Bit(7) == 0x80
    ensures Bit(8) == 0x100 && Bit(9) == 0x200 && Bit(10) == 0x400 && Bit(11) == 0x800
    ensures Bit(12) == 0x1000 && Bit(13) == 0x2000 && Bit(14) == 0x4000 && Bit(15) == 0x8000
    ensures Bit(16) == 0x1_0000 && Bit(17) == 0x2_0000 && Bit(18) == 0x4_0000 && Bit(19) == 0x8_0000
    ensures Bit(20) == 0x10_0000 && Bit(21) == 0x20_0000 && Bit(22) == 0x40_0000 && Bit(23) == 0x80_0000
    ensures Bit(24) == 0x100_0000 && Bit(25) == 0x200_0000 && Bit(26) == 0x400_0000 && Bit(27) == 0x800_0000
    ensures Bit(28) == 0x1000_0000 && Bit(29) == 0x2000_0000 && Bit(30) == 0x4000_0000 && Bit(31) == 0x8000_0000
  {}

  /** `is_power_of_2(num)` holds exactly of the 32 single-bit words. */
  lemma IsPowerOfTwoExactly(num: bv32)
    ensures IsPowerOfTwo(num) <==> exists k :: 0 <= k < 32 && num == Bit(k)
  {
    BitIsPowerOfTwo();
    if IsPowerOfTwo(num) {
      assert InWordTable(num);
      BitTable();
    }
  }

  /** The word `num` with every bit below its highest set bit also set. */
  function Smear(num: bv32): (r: bv32)
    ensures r & (r + 1) == 0
    ensures num <= r
    ensures num != 0 ==> r >> 1 < num
  {
    var a := num | (num >> 1);
    var b := a | (a >> 2);
    var c := b | (b >> 4);
    var d := c | (c >> 8);
    d | (d >> 16)
  }

  /** `hightest_one_bit`: the largest power of two not above `num`, or 0 for 0. */
  function HighestOneBit(num: bv32): (r: bv32)
    ensures num == 0 ==> r == 0
    ensures num != 0 ==> IsPowerOfTwo(r) && r <= num
    ensures forall p :: IsPowerOfTwo(p) && p <= num ==> p <= r
  {
    var e := Smear(num);
    e - (e >> 1)
  }

  /** `roundup_pow_of_two`: the smallest power of two at or above `num` for
      `num <= 2^31`, and 1 for 0 and 1. Above 2^31 the shift `(num - 1) << 1`
      drops the top bit, so the result is 0 or a power of two below `num`. */
  function RoundupPowOfTwo(num: bv32): (r: bv32)
    ensures num <= 1 ==> r == 1
    ensures num <= 0x8000_0000 ==> IsPowerOfTwo(r) && num <= r
    ensures num <= 0x8000_0000 ==> forall p :: IsPowerOfTwo(p) && num <= p ==> r <= p
    ensures 0x8000_0000 < num ==> r < num && (r == 0 || IsPowerOfTwo(r))
    ensures 0x8000_0000 < num ==> (r == 0 <==> num == 0x8000_0001)
  {
    if num > 1 then HighestOneBit((num - 1) << 1) else 1
  }

  /** Worked values: 10 rounds to 16, 16 stays 16, and two inputs above 2^31. */
  lemma RoundupExamples()
    ensures RoundupPowOfTwo(0) == 1 && RoundupPowOfTwo(1) == 1
    ensures RoundupPowOfTwo(8) == 8 && RoundupPowOfTwo(10) == 16 && RoundupPowOfTwo(16) == 16
    ensures RoundupPowOfTwo(0x8000_0000) == 0x8000_0000
    ensures RoundupPowOfTwo(0x8000_0001) == 0
    ensures RoundupPowOfTwo(0xC000_0000) == 0x4000_0000
  {}

  /** The 32 powers of two a `uint32_t` can hold, as integers. */
  predicate InPowerTable(n: int) {
    n == 1 || n == 2 || n == 4 || n == 8 || n == 0x10 || n == 0x20 || n == 0x40 || n == 0x80 ||
    n == 0x100 || n == 0x200 || n == 0x400 || n == 0x800 ||
    n == 0x1000 || n == 0x2000 || n == 0x4000 || n == 0x8000 ||
    n == 0x1_0000 || n == 0x2_0000 || n == 0x4_0000 || n == 0x8_0000 ||
    n == 0x10_0000 || n == 0x20_0000 || n == 0x40_0000 || n == 0x80_0000 ||
    n == 0x100_0000 || n == 0x200_0000 || n == 0x400_0000 || n == 0x800_0000 ||
    n == 0x1000_0000 || n == 0x2000_0000 || n == 0x4000_0000 || n == 0x8000_0000
  }

  /** A word that passes `is_power_of_2`, read as an integer, is a power of two. */
  lemma WordIsPow2(num: bv32)
    requires IsPowerOfTwo(num)
    ensures IsPow2(num as int)
  {
    var k := WordExponent(num);
  }

  /** A power-of-two word, read as an integer, is `2^k` for some `k < 32`. */
  lemma WordExponent(num: bv32) returns (k: nat)
    requires IsPowerOfTwo(num)
    ensures k < 32 && num as int == Pow2(k)
  {
    assert InWordTable(num);
    assert InPowerTable(num as int);
    k := IntExponent(num as int);
  }

  lemma {:induction false} IntExponent(n: int) returns (k: nat)
    requires InPowerTable(n)
    ensures n == Pow2(k) && k < 32
    decreases n
  {
    if n == 1 {
      k := 0;
    } else {
      var j := IntExponent(n / 2);
      k := j + 1;
      if k == 32 {
        Pow2Of32();
        assert false;
      }
    }
  }
}
