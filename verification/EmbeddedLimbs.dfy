/** The value of sixteen signed 16-bit limbs and what each step of the curve code in
    tunnel/tools/wireguard-tools/contrib/embeddable-wg-library/wireguard.c does to it.
    `x & 0xffff` is `x % BASE` and `x >> 16` is `x / BASE`. */
module EmbeddedLimbs {
  import opened Numbers
  import opened Ladder

  const BASE: int := 0x1_0000
  /** 2^256, which is 38 modulo p. */
  const TWO256: int := 2 * TWO255

  function W(s: seq<int>): int { Val(BASE, s) }

  /** The residue an element stands for. */
  function R(s: seq<int>): Residue { W(s) % P }

  predicate Within(s: seq<int>, m: int) { forall k :: 0 <= k < |s| ==> -m <= s[k] <= m }

  /** What multmod accepts: sums and differences of two tight elements. */
  predicate Small(s: seq<int>) { |s| == 16 && Within(s, 0x4_0000) }

  /** What multmod leaves: carried limbs, except that limb 0 took the last fold. */
  predicate Tight(s: seq<int>) {
    |s| == 16 && -38 <= s[0] < BASE + 38 && forall k :: 1 <= k < 16 ==> 0 <= s[k] < BASE
  }

  lemma Weight16()
    ensures Pow(BASE, 16) == TWO256
  {
    assert Pow(BASE, 8) == 0x1_00000000_00000000_00000000_00000000;
    PowAdd(BASE, 8, 8);
  }

  // ---- carry ----

  /** One pass of `carry` over limbs s: the digits of the value modulo 2^256, with the
      overflow folded into limb 0 with weight 38. */
  ghost predicate Carried(s: seq<int>, d: seq<int>, r: seq<int>) {
    && |s| == 16 && |d| == 16 && Digits(BASE, d)
    && W(d) == W(s) % TWO256
    && r == d[0 := d[0] + 38 * (W(s) / TWO256)]
  }

  lemma CarriedValue(s: seq<int>, d: seq<int>, r: seq<int>)
    requires Carried(s, d, r)
    ensures W(r) == W(s) % TWO256 + 38 * (W(s) / TWO256)
    ensures W(r) % P == W(s) % P
    ensures 0 <= W(d) < TWO256
  {
    hide Val, Pow;
    ValUpdate(BASE, d, 0, r[0]);
    ValEmpty(BASE);
    ValBound(BASE, d);
    Weight16();
    var q := W(s) / TWO256;
    ModAddMultiple(W(r), 2 * q, P);
  }

  /** The carry chain finishes with the quotient by 2^256. */
  lemma CarryOut(s: seq<int>, d: seq<int>, q: int)
    requires |s| == 16 && |d| == 16 && Digits(BASE, d)
    requires W(d) + q * Pow(BASE, 16) == W(s)
    ensures W(d) == W(s) % TWO256 && q == W(s) / TWO256
  {
    hide Val, Pow;
    Weight16();
    ValBound(BASE, d);
    DivModUnique(W(s), TWO256, q, W(d));
  }

  lemma {:induction false} ValWithin(s: seq<int>, m: int)
    requires 0 <= m && Within(s, m)
    ensures -(m * Pow(BASE, |s|)) <= 0xffff * W(s) <= m * Pow(BASE, |s|)
  {
    hide Val, Pow;
    ValEmpty(BASE);
    if s != [] {
      var n := |s| - 1;
      var w := Pow(BASE, n);
      ValWithin(s[..n], m);
      ValNext(BASE, s, n);
      assert s[..n + 1] == s;
      PowPositive(BASE, n);
      PowNext(BASE, n);
      MulBounded(s[n], w, m, w);
      assert m * (BASE * w) == BASE * (m * w);
    } else {
      assert s == [];
    }
  }

  /** Limbs within m carry at most m / 65535 + 1 out of the top. */
  lemma QuotientWithin(s: seq<int>, m: int)
    requires |s| == 16 && 0 <= m && Within(s, m)
    ensures -m / 0xffff - 1 <= W(s) / TWO256 <= m / 0xffff
  {
    hide Val, Pow;
    ValWithin(s, m);
    Weight16();
  }

  /** After one pass only limb 0 is off, by the folded overflow. */
  lemma SecondQuotient(s: seq<int>, d: seq<int>, r: seq<int>)
    requires Carried(s, d, r)
    requires -0x1_0000_0000_0000 <= W(s) / TWO256 <= 0x1_0000_0000_0000
    ensures -1 <= W(r) / TWO256 <= 1
  {
    hide Val, Pow;
    CarriedValue(s, d, r);
  }

  // ---- multmod ----

  /** The largest product of two small limbs. */
  const SQUARE: int := 0x4_0000 * 0x4_0000

  /** Columns of a product while row i is being added: those before i + j are done. */
  predicate MidRow(t: seq<int>, i: nat, j: nat) {
    forall k :: 0 <= k < |t| ==>
      var n := if k < i + j then i + 1 else i; -(n * SQUARE) <= t[k] <= n * SQUARE
  }

  lemma ColumnGrows(t: seq<int>, i: nat, j: nat, d: int)
    requires i + j < |t| && MidRow(t, i, j) && -SQUARE <= d <= SQUARE
    ensures MidRow(t[i + j := t[i + j] + d], i, j + 1)
    ensures -((i + 1) * SQUARE) <= t[i + j] + d <= (i + 1) * SQUARE
  {
  }

  lemma NextRow(t: seq<int>, i: nat, j: nat)
    requires MidRow(t, i, j)
    ensures MidRow(t, i + 1, 0)
  {
  }

  lemma ColumnsWithin(t: seq<int>)
    requires MidRow(t, 16, 0)
    ensures forall k :: 0 <= k < |t| ==> -17 * SQUARE <= t[k] <= 17 * SQUARE
  {
  }

  /** Folding the top fifteen columns in with weight 38 keeps the residue. */
  lemma FoldColumns(t: seq<int>, f: seq<int>)
    requires |t| == 31 && W(f) == W(t[..16]) + 38 * W(t[16..])
    ensures W(f) % P == W(t) % P
  {
    hide Val, Pow;
    ValSplit(BASE, t, 16);
    Weight16();
    ModAddMultiple(W(f), 2 * W(t[16..]), P);
  }

  /** Two passes of carry after a product leave tight limbs. */
  lemma CarriedTwice(s: seq<int>, d: seq<int>, r: seq<int>, d': seq<int>, r': seq<int>)
    requires |s| == 16 && Within(s, 0x7fff_ffff_ffff)
    requires Carried(s, d, r) && Carried(r, d', r')
    ensures Tight(r') && W(r') % P == W(s) % P
  {
    hide Val, Pow;
    QuotientWithin(s, 0x7fff_ffff_ffff);
    SecondQuotient(s, d, r);
    CarriedValue(s, d, r);
    CarriedValue(r, d', r');
  }

  lemma CarriedOnce(s: seq<int>, d: seq<int>, r: seq<int>, m: int)
    requires 0 <= m && Within(s, m) && Carried(s, d, r)
    ensures Within(r, 0xffff + 38 * (m / 0xffff + 1))
  {
    hide Val, Pow;
    QuotientWithin(s, m);
  }

  /** How far the exponent of `invert` is below a power of two before bit a is processed. */
  function Deficit(a: int): nat {
    if a >= 4 then 1 else if a == 3 then 2 else if a == 2 then 3 else if a == 1 then 6
    else if a == 0 then 11 else 21
  }

  lemma {:induction false} ValSum(x: seq<int>, y: seq<int>, z: seq<int>, sign: int)
    requires |x| == |y| == |z| && forall k :: 0 <= k < |x| ==> z[k] == x[k] + sign * y[k]
    ensures W(z) == W(x) + sign * W(y)
  {
    if x != [] {
      var n := |x| - 1;
      ValSum(x[..n], y[..n], z[..n], sign);
      var w := Pow(BASE, n);
      assert z[n] * w == x[n] * w + sign * (y[n] * w) by {
        MulDistributes(x[n], sign * y[n], w);
        MulAssociates(sign, y[n], w);
      }
      MulDistributes(W(y[..n]), y[n] * w, sign);
    }
  }

  // ---- pack ----

  /** One conditional subtraction of p. */
  function ReduceOnce(v: int): int { if P <= v then v - P else v }

  lemma ReducedTwice(v: int)
    requires 0 <= v < TWO256
    ensures ReduceOnce(ReduceOnce(v)) == v % P
  {
    DivModUnique(v, P, if v < P then 0 else if v < 2 * P then 1 else 2, ReduceOnce(ReduceOnce(v)));
  }

  /** A third pass of carry makes every limb a digit: when limb 0 still overflowed, the
      digits it wraps to leave room for the fold. */
  lemma CarriedThrice(s: seq<int>, d1: seq<int>, r1: seq<int>, d2: seq<int>, r2: seq<int>, d3: seq<int>, r3: seq<int>)
    requires |s| == 16 && Within(s, 0x3fff_ffff_ffff_ffff)
    requires Carried(s, d1, r1) && Carried(r1, d2, r2) && Carried(r2, d3, r3)
    ensures Digits(BASE, r3) && 0 <= W(r3) < TWO256 && W(r3) % P == W(s) % P
  {
    hide Val, Pow;
    QuotientWithin(s, 0x3fff_ffff_ffff_ffff);
    SecondQuotient(s, d1, r1);
    CarriedValue(s, d1, r1);
    CarriedValue(r1, d2, r2);
    CarriedValue(r2, d3, r3);
    LowDigit(d3);
    assert Digits(BASE, r3);
    ValBound(BASE, r3);
    Weight16();
  }

  lemma LowDigit(d: seq<int>)
    requires |d| == 16 && Digits(BASE, d)
    ensures d[0] <= W(d) <= TWO256 - BASE + d[0]
  {
    hide Val, Pow;
    ValHead(BASE, d);
    ValBound(BASE, d[1..]);
    Weight16();
    PowNext(BASE, 15);
  }

  /** p in base 2^16. */
  function PDigits(): (s: seq<int>)
    ensures |s| == 16
  {
    seq(16, i => if i == 0 then 0xffed else if i == 15 then 0x7fff else 0xffff)
  }

  lemma {:induction false} MaxDigits(s: seq<int>)
    requires forall k :: 0 <= k < |s| ==> s[k] == BASE - 1
    ensures W(s) == Pow(BASE, |s|) - 1
  {
    if s != [] {
      MaxDigits(s[..|s| - 1]);
    }
  }

  lemma PDigitsValue()
    ensures W(PDigits()) == P
  {
    hide Val, Pow;
    var max := seq(16, i => BASE - 1);
    MaxDigits(max);
    ValUpdate(BASE, max, 0, 0xffed);
    ValUpdate(BASE, max[0 := 0xffed], 15, 0x7fff);
    assert PDigits() == max[0 := 0xffed][15 := 0x7fff];
    Weight16();
    PowNext(BASE, 15);
    ValEmpty(BASE);
  }

  lemma BorrowStart(s: seq<int>)
    requires |s| == 16
    ensures (s[0] - 0xffed) * Pow(BASE, 0) == W(s[..1]) - W(PDigits()[..1])
  {
    hide Val, Pow;
    ValNext(BASE, s, 0);
    ValNext(BASE, PDigits(), 0);
    ValEmpty(BASE);
    assert s[..0] == [] && PDigits()[..0] == [];
  }

  lemma BorrowStep(d: seq<int>, s: seq<int>, i: nat, prev: int)
    requires |s| == 16 && 1 <= i < 16 && |d| == i - 1 && -BASE <= prev < BASE
    requires W(d) + prev * Pow(BASE, i - 1) == W(s[..i]) - W(PDigits()[..i])
    ensures W(d + [prev % BASE]) + (s[i] - (if i == 15 then 0x7fff else 0xffff) - prev / BASE % 2) * Pow(BASE, i)
         == W(s[..i + 1]) - W(PDigits()[..i + 1])
  {
    hide Val, Pow;
    var p, w := PDigits(), Pow(BASE, i - 1);
    ValNext(BASE, s, i);
    ValNext(BASE, p, i);
    ValSnoc(BASE, d, prev % BASE);
    PowNext(BASE, i - 1);
    var q := prev / BASE;
    assert q % 2 == -q;
    assert prev * w == prev % BASE * w + q * (BASE * w) by {
      MulDistributes(prev % BASE, BASE * q, w);
    }
    MulDistributes(s[i] - p[i], q, Pow(BASE, i));
    MulDistributes(s[i] - p[i], p[i], Pow(BASE, i));
  }

  lemma BorrowEnd(d: seq<int>, s: seq<int>, last: int)
    requires |s| == 16 && |d| == 15 && Digits(BASE, s) && Digits(BASE, d) && -BASE <= last < BASE
    requires W(d) + last * Pow(BASE, 15) == W(s[..16]) - W(PDigits()[..16])
    ensures last < 0 ==> W(s) < P
    ensures 0 <= last ==> P <= W(s) && W(d + [last]) == W(s) - P
  {
    hide Val, Pow;
    assert s[..16] == s && PDigits()[..16] == PDigits();
    PDigitsValue();
    ValSnoc(BASE, d, last);
    ValBound(BASE, d);
    PowPositive(BASE, 15);
    if last < 0 {
      MulMonotone(last, -1, Pow(BASE, 15));
    } else {
      MulMonotone(0, last, Pow(BASE, 15));
    }
  }

  /** Limb i is bytes 2 i and 2 i + 1. */
  lemma TwoBytes(d: seq<int>, s: seq<int>, i: nat)
    requires i < |s| && |d| == 2 * i && Val(256, d) == W(s[..i])
    ensures Val(256, d + [s[i] % 256] + [s[i] / 256]) == W(s[..i + 1])
  {
    hide Val, Pow;
    var lo, hi := s[i] % 256, s[i] / 256;
    ValSnoc(256, d, lo);
    ValSnoc(256, d + [lo], hi);
    ValNext(BASE, s, i);
    PowNext(256, 2 * i);
    assert Pow(256, 2 * i) == Pow(BASE, i) by {
      PowOfPow(256, 2, i);
      assert Pow(256, 2) == BASE by { PowOne(256); PowNext(256, 1); }
    }
    var w := Pow(BASE, i);
    assert s[i] == lo + hi * 256;
    MulDistributes(lo, hi * 256, w);
    MulAssociates(hi, 256, w);
  }

  // ---- the ladder ----

  lemma TightIsSmall(s: seq<int>)
    requires Tight(s)
    ensures Small(s)
  {
  }

  /** (z >> n) & 1 */
  function ByteBit(z: uint8, n: nat): int {
    PowPositive(2, n);
    z / Pow(2, n) % 2
  }

  lemma KeyBit(key: seq<uint8>, i: nat)
    requires |key| == 32 && i < 255
    ensures 0 <= ByteBit(key[i / 8], i % 8) <= 1 && 0 <= Val(256, key)
    ensures (ByteBit(key[i / 8], i % 8) == 1) == Bit(Val(256, key), i)
  {
    hide Val, Pow;
    BitOfBytes(key, i);
  }

  lemma ConstantResidue(s: seq<int>, n: int)
    requires W(s) == n && 0 <= n < P
    ensures R(s) == n
  {
    ModSmall(n, P);
  }

  lemma SquareOfNegation(x: int, y: int)
    ensures FMul(FSub(x, y), FSub(x, y)) == FMul(FSub(y, x), FSub(y, x))
  {
    FieldCongruent(x - y, x - y);
    FieldCongruent(y - x, y - x);
    var d := x - y;
    assert (y - x) * (y - x) == d * d;
  }

  /** Step with its operands in the order the C code multiplies them. */
  lemma StepReordered(u: Residue, c: Coords)
    ensures var A := FAdd(c.x2, c.z2); var B := FSub(c.x2, c.z2);
      var AA := FMul(A, A); var BB := FMul(B, B); var E := FSub(AA, BB);
      var CB := FMul(FAdd(c.x3, c.z3), B); var DA := FMul(FSub(c.x3, c.z3), A);
      Step(u, c) == Coords(FMul(AA, BB), FMul(E, FAdd(FMul(E, A24), AA)),
                           FMul(FAdd(CB, DA), FAdd(CB, DA)), FMul(FMul(FSub(CB, DA), FSub(CB, DA)), u))
  {
    hide FMul, FAdd, FSub;
    var A := FAdd(c.x2, c.z2); var B := FSub(c.x2, c.z2);
    var AA := FMul(A, A); var BB := FMul(B, B); var E := FSub(AA, BB);
    var CB := FMul(FAdd(c.x3, c.z3), B); var DA := FMul(FSub(c.x3, c.z3), A);
    FCommute(E, A24);
    FCommute(AA, FMul(A24, E));
    FCommute(CB, DA);
    SquareOfNegation(DA, CB);
    FCommute(u, FMul(FSub(CB, DA), FSub(CB, DA)));
  }
}
