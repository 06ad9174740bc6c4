/** Arithmetic modulo p = 2^255 - 19 and the X25519 function of section 5 of RFC 7748,
    stated on integers: the meaning that both limb implementations are proved against. */
module Ladder {
  import opened Numbers

  /** 2^255 */
  const TWO255: int := 0x80000000_00000000_00000000_00000000_00000000_00000000_00000000_00000000
  const P: int := TWO255 - 19
  const A24: int := 121665

  type Residue = x: int | 0 <= x < P

  function FAdd(x: int, y: int): Residue { (x + y) % P }
  function FSub(x: int, y: int): Residue { (x - y) % P }
  function FMul(x: int, y: int): Residue { (x * y) % P }

  /** The reciprocal the RFC prescribes, z^(p - 2), which is 0 for z = 0. */
  function FInv(z: int): Residue { Pow(z, P - 2) % P }

  lemma FCommute(x: int, y: int)
    ensures FMul(x, y) == FMul(y, x) && FAdd(x, y) == FAdd(y, x)
  {
  }

  lemma ModMul(x: int, y: int, d: int)
    requires 0 < d
    ensures (x * y) % d == ((x % d) * (y % d)) % d
  {
    var q, r, s, t := x / d, x % d, y / d, y % d;
    assert x == q * d + r && y == s * d + t;
    var k := q * y + r * s;
    calc {
      x * y;
      (q * d + r) * y;
      { MulDistributes(q * d, r, y); }
      (q * d) * y + r * y;
      { MulDistributes(s * d, t, r); }
      (q * d) * y + (r * (s * d) + r * t);
      { assert (q * d) * y == (q * y) * d; assert r * (s * d) == (r * s) * d; MulDistributes(q * y, r * s, d); }
      k * d + r * t;
    }
    ModAddMultiple(r * t, k, d);
  }

  lemma ModAdd(x: int, y: int, d: int)
    requires 0 < d
    ensures (x + y) % d == ((x % d) + (y % d)) % d
  {
    var q, r, s, t := x / d, x % d, y / d, y % d;
    assert x == q * d + r && y == s * d + t;
    MulDistributes(q, s, d);
    ModAddMultiple(r + t, q + s, d);
  }

  lemma ModSub(x: int, y: int, d: int)
    requires 0 < d
    ensures (x - y) % d == ((x % d) - (y % d)) % d
  {
    var q, r, s, t := x / d, x % d, y / d, y % d;
    assert x == q * d + r && y == s * d + t;
    MulDistributes(q - s, s, d);
    ModAddMultiple(r - t, q - s, d);
  }

  /** The field operations see only the residues of their arguments. */
  lemma FieldCongruent(x: int, y: int)
    ensures FAdd(x, y) == FAdd(x % P, y % P)
    ensures FSub(x, y) == FSub(x % P, y % P)
    ensures FMul(x, y) == FMul(x % P, y % P)
  {
    ModAdd(x, y, P);
    ModSub(x, y, P);
    ModMul(x, y, P);
  }

  lemma {:induction false} PowCongruent(x: int, e: nat)
    ensures Pow(x, e) % P == Pow(x % P, e) % P
  {
    if e > 0 {
      PowCongruent(x, e - 1);
      ModMul(x, Pow(x, e - 1), P);
      ModMul(x % P, Pow(x % P, e - 1), P);
      ModSmall(x % P, P);
    }
  }

  /** Multiplying two powers adds the exponents. */
  lemma FMulPowers(z: int, x: int, y: int, m: nat, n: nat)
    requires x % P == Pow(z, m) % P && y % P == Pow(z, n) % P
    ensures FMul(x, y) == Pow(z, m + n) % P
  {
    PowAdd(z, m, n);
    ModMul(x, y, P);
    ModMul(Pow(z, m), Pow(z, n), P);
  }

  /** 25 copies of the bit pattern 0000000001, n of them counted from the bottom. */
  function Pattern(n: nat): (r: nat) {
    if n == 0 then 0 else PowPositive(1024, n - 1); Pattern(n - 1) + Pow(1024, n - 1)
  }

  lemma PatternStart()
    ensures Pow(1024, 1) == 1024 && Pattern(2) == 1025
  {
    assert Pattern(1) == 1;
  }

  lemma PatternNext(n: nat)
    ensures Pattern(n + 1) == Pattern(n) + Pow(1024, n)
  {
  }

  lemma {:induction false} PatternSum(n: nat)
    ensures 1023 * Pattern(n) == Pow(1024, n) - 1
  {
    if n > 0 {
      PatternSum(n - 1);
    }
  }

  lemma TenBits()
    ensures Pow(2, 9) == 512 && Pow(2, 10) == 1024
  {
  }

  lemma TwoTo250()
    ensures 32 * Pow(1024, 25) == TWO255
  {
    assert Pow(1024, 5) == 0x4_0000_0000_0000;
    PowAdd(1024, 5, 5);
    PowAdd(1024, 10, 10);
    PowAdd(1024, 20, 5);
  }

  lemma TwoTo255()
    ensures Pow(2, 255) == TWO255
  {
    hide Pow;
    TenBits();
    TwoTo250();
    PowOfPow(2, 10, 25);
    PowAdd(2, 250, 5);
    assert Pow(2, 5) == 32 by { FiveBits(); }
  }

  lemma FiveBits()
    ensures Pow(2, 5) == 32
  {
  }

  // ---- The Montgomery ladder ----

  /** The two running points (x_2 : z_2) and (x_3 : z_3). */
  datatype Coords = Coords(x2: Residue, z2: Residue, x3: Residue, z3: Residue)

  function Swap(select: bool, c: Coords): Coords {
    if select then Coords(c.x3, c.z3, c.x2, c.z2) else c
  }

  /** Doubling (x_2 : z_2) and adding it differentially to (x_3 : z_3). */
  function Step(x1: Residue, c: Coords): Coords {
    var A := FAdd(c.x2, c.z2);
    var AA := FMul(A, A);
    var B := FSub(c.x2, c.z2);
    var BB := FMul(B, B);
    var E := FSub(AA, BB);
    var C := FAdd(c.x3, c.z3);
    var D := FSub(c.x3, c.z3);
    var DA := FMul(D, A);
    var CB := FMul(C, B);
    Coords(FMul(AA, BB),
           FMul(E, FAdd(AA, FMul(A24, E))),
           FMul(FAdd(DA, CB), FAdd(DA, CB)),
           FMul(x1, FMul(FSub(DA, CB), FSub(DA, CB))))
  }

  predicate Bit(k: nat, t: nat) {
    PowPositive(2, t);
    (k / Pow(2, t)) % 2 == 1
  }

  /** Bits `t - 1` down to 0 as the RFC writes the loop: a swap is undone only when the
      next bit differs, and once more after the last bit. */
  function DeferredLadder(k: nat, x1: Residue, t: nat, swap: bool, c: Coords): Coords
    decreases t
  {
    if t == 0 then Swap(swap, c)
    else
      var bit := Bit(k, t - 1);
      DeferredLadder(k, x1, t - 1, bit, Step(x1, Swap(swap != bit, c)))
  }

  lemma LadderNext(k: nat, x1: Residue, t: nat, swap: bool, c: Coords)
    ensures DeferredLadder(k, x1, t + 1, swap, c)
         == DeferredLadder(k, x1, t, Bit(k, t), Step(x1, Swap(swap != Bit(k, t), c)))
  {
    hide Step, Bit;
  }

  lemma LadderEnd(k: nat, x1: Residue, swap: bool, c: Coords)
    ensures DeferredLadder(k, x1, 0, swap, c) == Swap(swap, c)
  {
  }

  /** The same bits, swapping before and after every step. */
  function SimpleLadder(k: nat, x1: Residue, t: nat, c: Coords): Coords
    decreases t
  {
    if t == 0 then c
    else
      var bit := Bit(k, t - 1);
      SimpleLadder(k, x1, t - 1, Swap(bit, Step(x1, Swap(bit, c))))
  }

  lemma {:induction false} DeferredSwapsAgree(k: nat, x1: Residue, t: nat, swap: bool, c: Coords)
    ensures DeferredLadder(k, x1, t, swap, c) == SimpleLadder(k, x1, t, Swap(swap, c))
    decreases t
  {
    if t > 0 {
      var bit := Bit(k, t - 1);
      assert Swap(bit, Swap(swap, c)) == Swap(swap != bit, c);
      DeferredSwapsAgree(k, x1, t - 1, bit, Step(x1, Swap(swap != bit, c)));
    }
  }

  lemma SimpleNext(k: nat, x1: Residue, t: nat, c: Coords)
    ensures SimpleLadder(k, x1, t + 1, c) == SimpleLadder(k, x1, t, Swap(Bit(k, t), Step(x1, Swap(Bit(k, t), c))))
    ensures SimpleLadder(k, x1, 0, c) == c
  {
    hide Step, Bit;
  }

  function Start(u: Residue): Coords { Coords(1, 0, u, 1) }

  /** The u-coordinate of the scalar multiple. */
  function ScalarMult(k: nat, u: Residue): Residue {
    var c := DeferredLadder(k, u, 255, false, Start(u));
    FMul(c.x2, FInv(c.z2))
  }

  // ---- Bytes ----

  type Bytes32 = s: seq<uint8> | |s| == 32 witness seq(32, _ => 0)

  /** decodeScalar25519: clear the three low bits and the top bit, set bit 254. */
  function Clamp(s: Bytes32): Bytes32 {
    s[0 := s[0] / 8 * 8][31 := s[31] % 64 + 64]
  }

  function DecodeScalar(s: Bytes32): (k: nat) {
    ValBound(256, Clamp(s));
    Val(256, Clamp(s))
  }

  /** decodeUCoordinate: the unused top bit is masked off. */
  function DecodeU(s: Bytes32): (u: nat) {
    ValBound(256, s[31 := s[31] % 128]);
    Val(256, s[31 := s[31] % 128])
  }

  function EncodeU(u: Residue): (s: Bytes32)
    ensures Val(256, s) == u
  {
    Bytes32Bound();
    ValOfDigits(256, u, 32);
    ToDigits(256, u, 32)
  }

  function X25519(scalar: Bytes32, u: Bytes32): Bytes32 {
    EncodeU(ScalarMult(DecodeScalar(scalar), DecodeU(u) % P))
  }

  /** Keeping the top bit of the u-coordinate, instead of masking it, reads the same residue
      exactly when the bit is clear. */
  lemma UnmaskedU(s: Bytes32)
    ensures Val(256, s) % P == DecodeU(s) % P <==> s[31] < 128
  {
    hide Val, Pow;
    var m := s[31 := s[31] % 128];
    var w := Pow(256, 31);
    ValUpdate(256, s, 31, s[31] % 128);
    assert 128 * w == TWO255 by { Bytes32Bound(); PowNext(256, 31); }
    var top := s[31] / 128;
    assert Val(256, s) == Val(256, m) + top * TWO255;
    if top == 1 {
      var u := Val(256, m);
      ModAdd(u, TWO255, P);
      DivModUnique(TWO255, P, 1, 19);
      var r := u % P;
      if r + 19 < P {
        ModSmall(r + 19, P);
      } else {
        DivModUnique(r + 19, P, 1, r + 19 - P);
      }
    }
  }

  lemma Bytes32Bound()
    ensures Pow(256, 32) == 2 * TWO255
  {
    PowAdd(256, 8, 8);
    PowAdd(256, 16, 16);
    assert Pow(256, 8) == 0x1_00000000_00000000;
  }

  /** Bit t of a little-endian number is bit t % 8 of its byte t / 8. */
  lemma BitOfBytes(s: seq<uint8>, t: nat)
    requires t / 8 < |s|
    ensures 0 <= Val(256, s)
    ensures Bit(Val(256, s), t) == Bit(s[t / 8], t % 8)
  {
    var i := t / 8;
    ValBound(256, s);
    ValBound(256, s[..i]);
    ValBound(256, s[i + 1..]);
    ValAt(256, s, i);
    BitOfSplit(Val(256, s), Val(256, s[..i]), s[i], Val(256, s[i + 1..]), t);
  }

  lemma BitOfSplit(n: nat, low: nat, d: uint8, high: nat, t: nat)
    requires low < Pow(256, t / 8)
    requires n == low + Pow(256, t / 8) * (d + 256 * high)
    ensures Bit(n, t) == Bit(d, t % 8)
  {
    BitWeight(t);
    PowPositive(2, t % 8);
    DropLow(low, Pow(256, t / 8), d + 256 * high, Pow(2, t % 8));
    BitOfLowByte(d, high, t % 8);
  }

  lemma BitWeight(t: nat)
    ensures Pow(2, t) == Pow(256, t / 8) * Pow(2, t % 8)
  {
    PowAdd(2, 8 * (t / 8), t % 8);
    PowOfPow(2, 8, t / 8);
    assert Pow(2, 8) == 256;
  }

  lemma DropLow(low: int, w: int, n: nat, d: int)
    requires 0 <= low < w && 0 < d
    ensures 0 < w * d
    ensures (low + w * n) / (w * d) == n / d
  {
    MulPositive(w, d);
    var q, r := n / d, n % d;
    assert n == q * d + r;
    assert w * n == q * (w * d) + w * r by {
      MulDistributes(q * d, r, w);
      assert w * (q * d) == q * (w * d);
    }
    assert 0 <= low + w * r < w * d by {
      MulMonotone(r, d - 1, w);
      MulDistributes(d, -1, w);
      MulMonotone(0, r, w);
    }
    DivModUnique(low + w * n, w * d, q, low + w * r);
  }

  lemma BitOfLowByte(d: uint8, high: nat, j: nat)
    requires j < 8
    ensures Bit(d + 256 * high, j) == Bit(d, j)
  {
    HighBits(d, high, j, 8);
    assert Pow(2, 8) == 256;
  }

  /** Bit j does not see multiples of a larger power of two, on negative numbers either. */
  lemma HighBits(x: int, m: int, j: nat, n: nat)
    requires j < n
    ensures 0 < Pow(2, j)
    ensures (x + Pow(2, n) * m) / Pow(2, j) % 2 == x / Pow(2, j) % 2
  {
    PowPositive(2, j);
    PowAdd(2, j, n - j);
    PowNext(2, n - j - 1);
    EvenMultiple(x, m, Pow(2, j), Pow(2, n - j - 1));
  }

  lemma EvenMultiple(x: int, m: int, w: int, v: int)
    requires 0 < w
    ensures (x + w * (2 * v) * m) / w % 2 == x / w % 2
  {
    var k := v * m;
    assert w * (2 * v) * m == (2 * k) * w;
    ModAddMultiple(x, 2 * k, w);
    ModAddMultiple(x / w, k, 2);
  }
}
