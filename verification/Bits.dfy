/** Integer helpers of seq/bits.hpp: the portable 64 by 64 bit multiplication and the decimal digit
    counter. */
module Bits {
  import opened Arithmetic
  import opened Digits

  const B32 := 0x1_0000_0000
  const B64 := 0x1_0000_0000_0000_0000

  /** umul128 as written for compilers without 128-bit integers: every operation on uint64_t wraps. */
  function Umul128(u: nat, v: nat): (nat, nat)
    requires u < B64 && v < B64
  {
    var u0, v0, u1, v1 := u % B32, v % B32, u / B32, v / B32;
    FromParts(u0 * v0, u1 * v0, u0 * v1, u1 * v1, u * v)
  }

  /** Its sums, from the products of the halves of `u` and `v`. */
  function FromParts(p00: int, p10: int, p01: int, p11: int, product: int): (nat, nat) {
    var rl := product % B64;
    var w0 := p00 % B64;
    var t := (p10 + w0 / B32) % B64;
    var w1 := (p01 + t % B32) % B64;
    var rh := (p11 + w1 / B32 + t / B32) % B64;
    (rl, rh)
  }

  /** A product of 32-bit factors leaves room for two more 32-bit numbers. */
  lemma ProductRoom(x: nat, y: nat)
    requires x < B32 && y < B32
    ensures 0 <= x * y && x * y + 2 * (B32 - 1) < B64
  {
    MulLeq(x, B32 - 1, y);
    MulLeq(y, B32 - 1, B32 - 1);
    assert 0 * y <= x * y by {
      MulLeq(0, x, y);
    }
    assert (B32 - 1) * (B32 - 1) + 2 * (B32 - 1) < B64;
  }

  /** The school multiplication of two-digit numbers in base 2^32. */
  lemma SchoolProduct(u1: nat, u0: nat, v1: nat, v0: nat)
    ensures (u1 * B32 + u0) * (v1 * B32 + v0) == u1 * v1 * B64 + (u1 * v0) * B32 + (u0 * v1) * B32 + u0 * v0
  {
    var v := v1 * B32 + v0;
    assert (u1 * B32 + u0) * v == u1 * B32 * v + u0 * v;
    assert u1 * B32 * v == u1 * (v1 * B64 + v0 * B32);
    assert u1 * (v1 * B64 + v0 * B32) == u1 * v1 * B64 + u1 * v0 * B32;
    assert u0 * v == u0 * (v1 * B32) + u0 * v0;
  }

  /** The words of `r`, low word first, are those of `product`. */
  predicate IsProduct(r: (nat, nat), product: int) {
    r.0 < B64 && r.1 < B64 && r.1 * B64 + r.0 == product
  }

  /** No sum that umul128 forms of its partial products reaches 2^64. */
  predicate NoOverflow(p00: int, p10: int, p01: int, p11: int) {
    var t := p10 + p00 / B32;
    var w1 := p01 + t % B32;
    p00 < B64 && t < B64 && w1 < B64 && p11 + w1 / B32 + t / B32 < B64
  }

  /** umul128 returns the whole product, and no intermediate sum wraps around. */
  lemma Umul128Correct(u: nat, v: nat)
    requires u < B64 && v < B64
    ensures IsProduct(Umul128(u, v), u * v)
    ensures NoOverflow(u % B32 * (v % B32), u / B32 * (v % B32), u % B32 * (v / B32), u / B32 * (v / B32))
  {
    PartialProducts(u, v);
    hide *;
    var u0, v0, u1, v1 := u % B32, v % B32, u / B32, v / B32;
    FromPartsCorrect(u0 * v0, u1 * v0, u0 * v1, u1 * v1, u * v);
  }

  lemma Word(u: nat)
    requires u < B64
    ensures 0 <= u % B32 < B32 && 0 <= u / B32 < B32 && u == u / B32 * B32 + u % B32
  {
  }

  lemma PartialProducts(u: nat, v: nat)
    requires u < B64 && v < B64
    ensures var (u0, v0, u1, v1) := (u % B32, v % B32, u / B32, v / B32);
            && Umul128(u, v) == FromParts(u0 * v0, u1 * v0, u0 * v1, u1 * v1, u * v)
            && u * v == u1 * v1 * B64 + u1 * v0 * B32 + u0 * v1 * B32 + u0 * v0
            && u0 * v0 >= 0 && u1 * v0 >= 0 && u0 * v1 >= 0 && u1 * v1 >= 0
            && u0 * v0 + 2 * (B32 - 1) < B64 && u1 * v0 + 2 * (B32 - 1) < B64
            && u0 * v1 + 2 * (B32 - 1) < B64 && u1 * v1 + 2 * (B32 - 1) < B64
  {
    var u0, v0, u1, v1 := u % B32, v % B32, u / B32, v / B32;
    Word(u);
    Word(v);
    hide FromParts;
    ProductRoom(u0, v0);
    ProductRoom(u1, v0);
    ProductRoom(u0, v1);
    ProductRoom(u1, v1);
    assert u * v == (u1 * B32 + u0) * (v1 * B32 + v0);
    SchoolProduct(u1, u0, v1, v0);
  }

  /** The carries of the school multiplication, linear in the halves of the sums. */
  lemma Carries(a1: nat, a0: nat, t1: nat, t0: nat, w1: nat, w0: nat, p10: nat, p01: nat, p11: nat)
    requires p10 + a1 == t1 * B32 + t0 && p01 + t0 == w1 * B32 + w0
    requires a0 < B32 && w0 < B32
    ensures (p11 + w1 + t1) * B64 + (w0 * B32 + a0) == p11 * B64 + p10 * B32 + p01 * B32 + (a1 * B32 + a0)
    ensures w0 * B32 + a0 < B64
  {
  }

  lemma SmallMod(x: nat)
    requires x < B64
    ensures x % B64 == x
  {
  }

  /** Without wrapping, the remainders in the code do nothing: it computes the two words of the
      product from the four partial ones. */
  lemma FromPartsCorrect(p00: int, p10: int, p01: int, p11: int, product: int)
    requires p00 >= 0 && p10 >= 0 && p01 >= 0 && p11 >= 0
    requires p00 + 2 * (B32 - 1) < B64 && p10 + 2 * (B32 - 1) < B64 && p01 + 2 * (B32 - 1) < B64
             && p11 + 2 * (B32 - 1) < B64
    requires product == p11 * B64 + p10 * B32 + p01 * B32 + p00
    ensures IsProduct(FromParts(p00, p10, p01, p11, product), product)
    ensures NoOverflow(p00, p10, p01, p11)
  {
    var t := p10 + p00 / B32;
    var w1 := p01 + t % B32;
    DivMod(p00, B32);
    DivMod(t, B32);
    DivMod(w1, B32);
    Carries(p00 / B32, p00 % B32, t / B32, t % B32, w1 / B32, w1 % B32, p10, p01, p11);
    SmallMod(p00);
    SmallMod(t);
    SmallMod(w1);
    SmallMod(p11 + w1 / B32 + t / B32);
    LowWord(p11 + w1 / B32 + t / B32, w1 % B32 * B32 + p00 % B32);
  }

  lemma LowWord(hi: nat, lo: nat)
    requires lo < B64
    ensures (hi * B64 + lo) % B64 == lo
  {
  }

  /** count_digits_base_10 for an unsigned type of `bits` bits. */
  function CountDigits(bits: nat, x: nat): nat {
    if bits > 32 && x >= 10000000000 then
      if x >= 100000000000000 then
        if x >= 10000000000000000 then
          if x >= 100000000000000000 then
            if x >= 1000000000000000000 then
              if x >= 10000000000000000000 then 20 else 19
            else 18
          else 17
        else if x >= 1000000000000000 then 16
        else 15
      else if x >= 1000000000000 then
        if x >= 10000000000000 then 14 else 13
      else if x >= 100000000000 then 12
      else 11
    else if bits > 16 && x >= 100000 then
      if x >= 10000000 then
        if x >= 100000000 then
          if x >= 1000000000 then 10 else 9
        else 8
      else if x >= 1000000 then 7
      else 6
    else if x >= 100 then
      if x >= 1000 then
        if x >= 10000 then 5 else 4
      else 3
    else if x >= 10 then 2
    else 1
  }

  predicate FitsIn(bits: nat, x: nat) {
    match bits
    case 8 => x < 0x100
    case 16 => x < 0x1_0000
    case 32 => x < B32
    case 64 => x < B64
    case _ => false
  }

  /** It counts the digits of the decimal notation, zero having one. */
  lemma {:induction false} CountDigitsCounts(bits: nat, x: nat)
    requires FitsIn(bits, x)
    ensures CountDigits(bits, x) == if x == 0 then 1 else |DigitsOf(x, 10)|
    decreases x
  {
    if x >= 10 {
      CountDigitsCounts(bits, x / 10);
    } else if x > 0 {
      assert DigitsOf(x, 10) == DigitsOf(0, 10) + [x];
    }
  }
}
