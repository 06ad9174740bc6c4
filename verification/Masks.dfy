/** The bitwise operators of Java and C on signed words, in two's complement, and the branch-free
    exchange and selection that are made of them. */
module Masks {
  import opened Numbers

  // ---- Bit by bit ----

  /** n bits and a sign. */
  predicate Fits(x: int, n: nat)
    decreases n
  {
    if n == 0 then x == 0 || x == -1 else Fits(x / 2, n - 1)
  }

  function BitXor(x: int, y: int, n: nat): (r: int)
    requires Fits(x, n) && Fits(y, n)
    ensures Fits(r, n)
    decreases n
  {
    if n == 0 then (if x == y then 0 else -1) else 2 * BitXor(x / 2, y / 2, n - 1) + (x + y) % 2
  }

  function BitAnd(x: int, y: int, n: nat): (r: int)
    requires Fits(x, n) && Fits(y, n)
    ensures Fits(r, n)
    decreases n
  {
    if n == 0 then (if x == y then x else 0)
    else 2 * BitAnd(x / 2, y / 2, n - 1) + if x % 2 == 1 && y % 2 == 1 then 1 else 0
  }

  function BitOr(x: int, y: int, n: nat): (r: int)
    requires Fits(x, n) && Fits(y, n)
    ensures Fits(r, n)
    decreases n
  {
    if n == 0 then (if x == y then x else -1)
    else 2 * BitOr(x / 2, y / 2, n - 1) + if x % 2 == 1 || y % 2 == 1 then 1 else 0
  }

  function BitNot(x: int): int { -1 - x }

  lemma {:induction false} FitsConstants(n: nat)
    ensures Fits(0, n) && Fits(-1, n)
  {
    if n > 0 {
      FitsConstants(n - 1);
    }
  }

  lemma {:induction false} XorZero(x: int, n: nat)
    requires Fits(x, n)
    ensures Fits(0, n) && BitXor(x, 0, n) == x
    decreases n
  {
    FitsConstants(n);
    if n > 0 {
      XorZero(x / 2, n - 1);
    }
  }

  /** The lowest bit, and the others. */
  lemma XorBits(x: int, y: int, n: nat)
    requires Fits(x, n) && Fits(y, n) && n > 0
    ensures BitXor(x, y, n) % 2 == (x + y) % 2 && BitXor(x, y, n) / 2 == BitXor(x / 2, y / 2, n - 1)
  {
  }

  lemma {:induction false} XorBack(x: int, y: int, n: nat)
    requires Fits(x, n) && Fits(y, n)
    ensures BitXor(x, BitXor(x, y, n), n) == y && BitXor(y, BitXor(x, y, n), n) == x
    decreases n
  {
    if n > 0 {
      hide BitXor;
      var z := BitXor(x, y, n);
      XorBits(x, y, n);
      XorBits(x, z, n);
      XorBits(y, z, n);
      XorBack(x / 2, y / 2, n - 1);
      SameBits(x, y, BitXor(x, z, n), BitXor(y, z, n), z);
    }
  }

  lemma SameBits(x: int, y: int, p: int, q: int, z: int)
    requires z % 2 == (x + y) % 2 && p % 2 == (x + z) % 2 && q % 2 == (y + z) % 2 && p / 2 == y / 2 && q / 2 == x / 2
    ensures p == y && q == x
  {
  }

  lemma {:induction false} AndLaws(x: int, n: nat)
    requires Fits(x, n)
    ensures Fits(0, n) && BitAnd(0, x, n) == 0 && BitAnd(x, 0, n) == 0
    ensures Fits(-1, n) && BitAnd(-1, x, n) == x && BitAnd(x, -1, n) == x
    decreases n
  {
    FitsConstants(n);
    if n > 0 {
      AndLaws(x / 2, n - 1);
    }
  }

  lemma {:induction false} OrLaws(x: int, n: nat)
    requires Fits(x, n)
    ensures Fits(0, n) && BitOr(0, x, n) == x && BitOr(x, 0, n) == x
    decreases n
  {
    FitsConstants(n);
    if n > 0 {
      OrLaws(x / 2, n - 1);
    }
  }

  // ---- Exchange and selection ----

  /** dummy = m & (x ^ y); x ^= dummy; y ^= dummy, with a mask of all zeros or all ones. */
  lemma MaskedSwap(x: int, y: int, m: int, n: nat)
    requires Fits(x, n) && Fits(y, n) && (m == 0 || m == -1)
    ensures Fits(m, n)
    ensures var dummy := BitAnd(m, BitXor(x, y, n), n);
      BitXor(x, dummy, n) == (if m == 0 then x else y) && BitXor(y, dummy, n) == if m == 0 then y else x
  {
    hide BitXor, BitAnd;
    AndLaws(BitXor(x, y, n), n);
    XorZero(x, n);
    XorZero(y, n);
    XorBack(x, y, n);
  }

  /** (x & ~m) | (y & m). */
  lemma MaskedSelect(x: int, y: int, m: int, n: nat)
    requires Fits(x, n) && Fits(y, n) && (m == 0 || m == -1)
    ensures Fits(m, n) && Fits(BitNot(m), n)
    ensures BitOr(BitAnd(x, BitNot(m), n), BitAnd(y, m, n), n) == if m == 0 then x else y
  {
    hide BitAnd, BitOr;
    AndLaws(x, n);
    AndLaws(y, n);
    OrLaws(x, n);
    OrLaws(y, n);
  }

  // ---- int and int64_t ----

  lemma {:induction false} FitsIff(x: int, n: nat)
    ensures Fits(x, n) <==> -Pow(2, n) <= x < Pow(2, n)
    decreases n
  {
    if n > 0 {
      FitsIff(x / 2, n - 1);
      PowNext(2, n - 1);
    }
  }

  lemma PowersOfTwo()
    ensures Pow(2, 31) == 0x8000_0000 && Pow(2, 63) == 0x8000_0000_0000_0000
  {
    assert Pow(2, 8) == 0x100;
    PowAdd(2, 8, 8);
    PowAdd(2, 16, 16);
    PowNext(2, 31);
    PowAdd(2, 32, 32);
    PowNext(2, 63);
  }

  lemma Words(x: int)
    ensures Fits(x, 31) <==> -0x8000_0000 <= x < 0x8000_0000
    ensures Fits(x, 63) <==> -0x8000_0000_0000_0000 <= x < 0x8000_0000_0000_0000
  {
    hide Pow, Fits;
    PowersOfTwo();
    FitsIff(x, 31);
    FitsIff(x, 63);
  }

  function Xor32(x: int32, y: int32): int32 {
    Words(x); Words(y);
    var r := BitXor(x, y, 31);
    Words(r);
    r
  }

  function And32(x: int32, y: int32): int32 {
    Words(x); Words(y);
    var r := BitAnd(x, y, 31);
    Words(r);
    r
  }

  function Or32(x: int32, y: int32): int32 {
    Words(x); Words(y);
    var r := BitOr(x, y, 31);
    Words(r);
    r
  }

  function Xor64(x: int64, y: int64): int64 {
    Words(x); Words(y);
    var r := BitXor(x, y, 63);
    Words(r);
    r
  }

  function And64(x: int64, y: int64): int64 {
    Words(x); Words(y);
    var r := BitAnd(x, y, 63);
    Words(r);
    r
  }

  lemma Swap32(select: int32, x: int32, y: int32)
    requires 0 <= select <= 1
    ensures var dummy := And32(-select, Xor32(x, y));
      Xor32(x, dummy) == (if select == 1 then y else x) && Xor32(y, dummy) == if select == 1 then x else y
  {
    hide BitXor, BitAnd;
    Words(x);
    Words(y);
    MaskedSwap(x, y, -select, 31);
  }

  lemma Swap64(b: int64, x: int64, y: int64)
    requires 0 <= b <= 1
    ensures var t := And64(BitNot(b - 1), Xor64(x, y));
      Xor64(x, t) == (if b == 1 then y else x) && Xor64(y, t) == if b == 1 then x else y
  {
    hide BitXor, BitAnd;
    Words(x);
    Words(y);
    MaskedSwap(x, y, BitNot(b - 1), 63);
  }

  lemma Select32(select: int32, x: int32, y: int32)
    requires 0 <= select <= 1
    ensures Or32(And32(x, BitNot(-select)), And32(y, -select)) == if select == 1 then y else x
  {
    hide BitAnd, BitOr;
    Words(x);
    Words(y);
    MaskedSelect(x, y, -select, 31);
  }
}
