/** The value of ten 26-bit limbs and what each carry chain of
    tunnel/src/main/java/com/wireguard/crypto/Curve25519.java does to it.
    `x & 0x03FFFFFF` is `x % BASE` and `x >> 26` is `x / BASE` (Euclidean, so both agree with
    two's complement on negative values). */
module JavaLimbs {
  import opened Numbers
  import opened Ladder

  const BASE: int := 0x400_0000
  /** 2^21, the weight of bit 255 inside limb 9. */
  const TOP: int := 0x20_0000

  function V(s: seq<int>): int { Val(BASE, s) }

  predicate Limbs(s: seq<int>) { |s| == 10 && Digits(BASE, s) }

  predicate Canonical(s: seq<int>) { Limbs(s) && V(s) < P }

  lemma LimbWeights()
    ensures TOP * Pow(BASE, 9) == TWO255
    ensures Pow(BASE, 10) == 32 * TWO255
  {
    assert Pow(BASE, 9) == 0x400_00000000_00000000_00000000_00000000_00000000_00000000_00000000;
  }

  /** Bit 255 and up are the bits of limb 9 from bit 21 up. */
  lemma TopSplit(s: seq<int>)
    requires Limbs(s)
    ensures V(s) / TWO255 == s[9] / TOP
    ensures V(s) % TWO255 == V(s[9 := s[9] % TOP])
  {
    LimbWeights();
    ValNext(BASE, s, 9);
    assert s[..10] == s;
    ValBound(BASE, s[..9]);
    ValUpdate(BASE, s, 9, s[9] % TOP);
    DivModUnique(V(s), TWO255, s[9] / TOP, V(s[..9]) + s[9] % TOP * Pow(BASE, 9));
  }

  /** What one call of reduceQuick does to the value: a trial subtraction of p whose success
      is read off bit 255 of v + 19. */
  function QuickReduce(v: int): int {
    if (v + 19) / TWO255 % 2 == 1 then (v + 19) % TWO255 else v
  }

  /** `sum` holds the low 260 bits of v + 19; its limb 9 decides the trial subtraction. */
  lemma TrialSubtraction(v: seq<int>, sum: seq<int>, carry: int)
    requires Limbs(v) && Limbs(sum)
    requires V(sum) + carry * Pow(BASE, 10) == 19 + V(v)
    ensures QuickReduce(V(v)) == if sum[9] / TOP % 2 == 1 then V(sum[9 := sum[9] % TOP]) else V(v)
  {
    LimbWeights();
    TopSplit(sum);
    var q := V(sum) / TWO255;
    DivModUnique(V(v) + 19, TWO255, q + 32 * carry, V(sum) % TWO255);
  }

  /** A value below 2p is reduced by one trial subtraction. */
  lemma QuickReduceOnce(v: int)
    requires 0 <= v < 2 * P
    ensures QuickReduce(v) == v % P
  {
    if v < P {
      ModSmall(v, P);
      DivModUnique(v + 19, TWO255, 0, v + 19);
    } else {
      DivModUnique(v, P, 1, v - P);
      DivModUnique(v + 19, TWO255, 1, v + 19 - TWO255);
    }
  }

  /** Two trial subtractions reduce every 256-bit number except the nineteen largest, whose
      sum with 19 overflows past bit 255; those are left as they are. */
  lemma QuickReduceTwice(v: int)
    requires 0 <= v < 2 * TWO255
    ensures QuickReduce(QuickReduce(v)) == v % P <==> v < 2 * TWO255 - 19
  {
    if v < 2 * P {
      QuickReduceOnce(v);
      ModSmall(v % P, P);
      QuickReduceOnce(v % P);
    } else if v < 2 * TWO255 - 19 {
      DivModUnique(v + 19, TWO255, 1, v + 19 - TWO255);
      ModAddMultiple(v - P, 1, P);
      QuickReduceOnce(v - P);
    } else {
      DivModUnique(v + 19, TWO255, 2, v + 19 - 2 * TWO255);
    }
  }

  /** The limbs done so far, and the carry at their end, are this number. Every loop below keeps that. */
  ghost predicate Balanced(done: seq<int>, carry: int, total: int) { V(done) + carry * Pow(BASE, |done|) == total }

  lemma BalancedStart(carry: int)
    ensures Digits(BASE, []) && Balanced([], carry, carry) && V([]) == 0
  {
  }

  lemma BalancedNext(done: seq<int>, carry: int, total: int, x: int)
    requires Balanced(done, carry, total)
    ensures var c := carry + x; Balanced(done + [c % BASE], c / BASE, total + x * Pow(BASE, |done|))
  {
    hide Val, Pow;
    CarryStep(BASE, done, carry, x, total);
  }

  lemma BalancedEnd(done: seq<int>, carry: int, total: int)
    requires Balanced(done, carry, total)
    ensures V(done) + carry * Pow(BASE, |done|) == total && V(done + [carry]) == total
  {
    hide Val, Pow;
    ValSnoc(BASE, done, carry);
  }

  lemma LimbAt(v: seq<int>, i: nat)
    requires i < |v| && Digits(BASE, v)
    ensures 0 <= v[i] < BASE
  {
  }

  /** What is left of a limb, and what it carries or borrows. */
  lemma CarryRange(c: int)
    ensures 0 <= c % BASE < BASE
    ensures -BASE <= c < BASE ==> -1 <= c / BASE <= 0
    ensures 0 <= c < 2 * BASE ==> 0 <= c / BASE <= 1
  {
  }

  lemma AddStep(done: seq<int>, v: seq<int>, w: seq<int>, carry: int)
    requires |done| < |v| == |w| && Balanced(done, carry, V(v[..|done|]) + V(w[..|done|]))
    ensures var i := |done|; var c := carry + v[i] + w[i];
      Balanced(done + [c % BASE], c / BASE, V(v[..i + 1]) + V(w[..i + 1]))
  {
    hide Val, Pow, Balanced;
    var i := |done|;
    BalancedNext(done, carry, V(v[..i]) + V(w[..i]), v[i] + w[i]);
    ValNext(BASE, v, i);
    ValNext(BASE, w, i);
    MulDistributes(v[i], w[i], Pow(BASE, i));
  }

  lemma SubStep(done: seq<int>, v: seq<int>, w: seq<int>, borrow: int)
    requires |done| < |v| == |w| && -1 <= borrow <= 0 && Balanced(done, borrow, V(v[..|done|]) - V(w[..|done|]))
    ensures var i := |done|; var c := v[i] - w[i] - borrow % 2;
      Balanced(done + [c % BASE], c / BASE, V(v[..i + 1]) - V(w[..i + 1]))
  {
    hide Val, Pow, Balanced;
    var i := |done|;
    BalancedNext(done, borrow, V(v[..i]) - V(w[..i]), v[i] - w[i]);
    assert v[i] - w[i] - borrow % 2 == borrow + (v[i] - w[i]);
    ValNext(BASE, v, i);
    ValNext(BASE, w, i);
    MulDistributes(v[i] - w[i], w[i], Pow(BASE, i));
  }

  /** Limbs of v and a small number. */
  lemma CarryOn(done: seq<int>, carry: int, v: seq<int>, first: int)
    requires |done| < |v| && Balanced(done, carry, V(v[..|done|]) + first)
    ensures var i := |done|; var c := carry + v[i]; Balanced(done + [c % BASE], c / BASE, V(v[..i + 1]) + first)
  {
    hide Val, Pow, Balanced;
    BalancedNext(done, carry, V(v[..|done|]) + first, v[|done|]);
    ValNext(BASE, v, |done|);
  }

  lemma ScaleStep(done: seq<int>, v: seq<int>, carry: int)
    requires |done| < |v| && Balanced(done, carry, A24 * V(v[..|done|]))
    ensures var i := |done|; var c := carry + A24 * v[i]; Balanced(done + [c % BASE], c / BASE, A24 * V(v[..i + 1]))
  {
    hide Val, Pow, Balanced;
    var i := |done|;
    BalancedNext(done, carry, A24 * V(v[..i]), A24 * v[i]);
    ValNext(BASE, v, i);
    MulAssociates(A24, v[i], Pow(BASE, i));
  }

  lemma NoCarryOut(v: seq<int>, w: seq<int>, r: seq<int>, carry: int)
    requires Canonical(v) && Canonical(w) && Limbs(r) && 0 <= carry
    requires V(r) + carry * Pow(BASE, 10) == V(v) + V(w)
    ensures V(r) == V(v) + V(w)
  {
    hide Val, Pow;
    LimbWeights();
    ValBound(BASE, r);
  }

  /** After the first pass the limbs hold v - w modulo 2^260; subtracting 19 on a borrow and
      keeping 255 bits adds p exactly when v < w. */
  lemma BorrowFold(v: seq<int>, w: seq<int>, r: seq<int>, s: seq<int>, out: int, out': int)
    requires Canonical(v) && Canonical(w) && Limbs(r) && Limbs(s)
    requires -1 <= out <= 0 && -1 <= out' <= 0
    requires V(r) + out * Pow(BASE, 10) == V(v) - V(w)
    requires V(s) + out' * Pow(BASE, 10) == V(r) - if out % 2 == 1 then 19 else 0
    ensures Canonical(s[9 := s[9] % TOP])
    ensures V(s[9 := s[9] % TOP]) == FSub(V(v), V(w))
  {
    hide Val, Pow;
    LimbWeights();
    TopSplit(s);
    ValBound(BASE, v); ValBound(BASE, w); ValBound(BASE, r); ValBound(BASE, s);
    var d := V(v) - V(w);
    if out == 0 {
      ModSmall(d, P);
      DivModUnique(V(s), TWO255, -32 * out', d);
    } else {
      DivModUnique(d, P, -1, d + P);
      DivModUnique(V(s), TWO255, 31 - 32 * out', d + P);
    }
  }

  /** Folding the bits above 2^255 back in with weight 19 keeps the residue. */
  lemma FoldCongruent(v: int)
    ensures (v % TWO255 + 19 * (v / TWO255)) % P == v % P
  {
    ModAddMultiple(v % TWO255 + 19 * (v / TWO255), v / TWO255, P);
  }

  lemma FoldFits(v: int)
    requires 0 <= v < TWO255 * TWO255
    ensures v % TWO255 + 19 * (v / TWO255) < Pow(BASE, 10)
  {
    hide Pow;
    LimbWeights();
  }

  lemma FoldBound(v: int)
    requires 0 <= v < TWO255 * TWO255
    ensures var w := v % TWO255 + 19 * (v / TWO255);
      0 <= w && w / TWO255 <= 19
  {
    QuotientBound(v, TWO255, TWO255);
    QuotientBound(v % TWO255 + 19 * (v / TWO255), TWO255, 20);
  }

  /** Two folds bring a product below 2p, so the trial subtraction finishes the job. */
  lemma FoldedTwice(v: int, w: int, r: int, carry: int)
    requires 0 <= v < TWO255 * TWO255 && 0 <= carry && 0 <= r
    requires w == v % TWO255 + 19 * (v / TWO255)
    requires r + carry * Pow(BASE, 10) == w % TWO255 + w / TWO255 * 19
    ensures carry == 0
    ensures QuickReduce(r) == v % P
  {
    hide Val, Pow;
    LimbWeights();
    FoldBound(v);
    FoldCongruent(v);
    FoldCongruent(w);
    QuickReduceOnce(r);
  }

  lemma LimbRange(m: seq<int>)
    requires Limbs(m)
    ensures |m| == 10 && forall k :: 0 <= k < 10 ==> 0 <= m[k] < BASE
  {
  }

  lemma HighBounds(limb: int, carry: int, hi: int, lo: int)
    requires 0 <= limb <= 31 && 0 <= carry <= 19 && 0 <= hi < BASE && 0 <= lo < BASE
    ensures var l := limb + hi * 32; var c := carry + l % BASE * 19 + lo;
      && 0 <= l < 0x8000_0000 && 0 <= l / BASE <= 31
      && 0 <= c < 0x8000_0000 && 0 <= c / BASE <= 19
  {
  }

  /** `limb` streams the bits above 2^255, 26 at a time: h is what has been streamed. */
  lemma StreamStep(high: seq<int>, i: nat, limb: int, h: int, top: int)
    requires i < |high|
    requires h + limb * Pow(BASE, i) == top + 32 * V(high[..i])
    ensures var l := limb + high[i] * 32;
      h + l % BASE * Pow(BASE, i) + l / BASE * Pow(BASE, i + 1) == top + 32 * V(high[..i + 1])
  {
    hide Val;
    var w := Pow(BASE, i);
    var l := limb + high[i] * 32;
    ValNext(BASE, high, i);
    assert l * w == limb * w + 32 * (high[i] * w) by { MulDistributes(limb, high[i] * 32, w); }
    assert l * w == l % BASE * w + l / BASE * (BASE * w) by {
      assert l == l % BASE + BASE * (l / BASE);
      MulDistributes(l % BASE, BASE * (l / BASE), w);
    }
  }

  /** One limb of the first fold. */
  lemma HighStep(done: seq<int>, m: seq<int>, carry: int, digit: int, h: int)
    requires |done| < |m| && 0 <= digit && 0 <= h
    requires V(done) + carry * Pow(BASE, |done|) == V(m[..|done|]) + 19 * h
    ensures var i := |done|; var c := carry + digit * 19 + m[i]; var h' := h + digit * Pow(BASE, i);
      0 <= h' && V(done + [c % BASE]) + c / BASE * Pow(BASE, i + 1) == V(m[..i + 1]) + 19 * h'
  {
    hide Val, Pow;
    var i := |done|;
    PowPositive(BASE, i);
    MulMonotone(0, digit, Pow(BASE, i));
    CarryStep(BASE, done, carry, digit * 19 + m[i], V(m[..i]) + 19 * h);
    ValNext(BASE, m, i);
    MulDistributes(digit * 19, m[i], Pow(BASE, i));
  }

  /** i steps of folding the high half: `limb` and h are the stream so far, low and carry the sum. */
  ghost predicate Streamed(low: seq<int>, m: seq<int>, high: seq<int>, top: int, i: nat, limb: int, h: int,
                           carry: int) {
    && |low| == i <= |high| && Limbs(m) && i <= 10 && Digits(BASE, high) && Digits(BASE, low)
    && 0 <= carry <= 19 && 0 <= limb <= 31 && 0 <= h
    && h + limb * Pow(BASE, i) == top + 32 * V(high[..i])
    && V(low) + carry * Pow(BASE, i) == V(m[..i]) + 19 * h
  }

  lemma StreamedNext(low: seq<int>, m: seq<int>, high: seq<int>, top: int, i: nat, limb: int, h: int, carry: int)
    requires Streamed(low, m, high, top, i, limb, h, carry) && i < |high| && i < 10
    ensures var l := limb + high[i] * 32; var c := carry + l % BASE * 19 + m[i];
      && 0 <= l < 0x8000_0000 && 0 <= l / BASE <= 31 && 0 <= c < 0x8000_0000 && 0 <= c / BASE <= 19
      && Streamed(low + [c % BASE], m, high, top, i + 1, l / BASE, h + l % BASE * Pow(BASE, i), c / BASE)
  {
    hide Val, Pow;
    HighBounds(limb, carry, high[i], m[i]);
    StreamStep(high, i, limb, h, top);
    HighStep(low, m, carry, (limb + high[i] * 32) % BASE, h);
  }

  lemma StreamedAll(low: seq<int>, m: seq<int>, high: seq<int>, top: int, limb: int, h: int, carry: int)
    requires Streamed(low, m, high, top, |high|, limb, h, carry)
    ensures Digits(BASE, low) && 0 <= h
    ensures h + limb * Pow(BASE, |high|) == top + 32 * V(high)
    ensures V(low) + carry * Pow(BASE, |high|) == V(m[..|high|]) + 19 * h
  {
    hide Val, Pow;
    assert high[..|high|] == high;
  }

  /** The bits of v from 2^255 up, assembled from limb 9 and the high limbs. */
  lemma HighPart(v: seq<int>, size: nat, h: int, limb: int)
    requires 1 <= size && |v| == 10 + size && Digits(BASE, v)
    requires V(v) < TWO255 * Pow(BASE, size) && 0 <= h && 0 <= limb
    requires h + limb * Pow(BASE, size) == v[9] / TOP + 32 * V(v[10..])
    ensures limb == 0
    ensures V(v) / TWO255 == h
    ensures V(v) % TWO255 == V(v[..10][9 := v[9] % TOP])
  {
    hide Val, Pow;
    LimbWeights();
    ValSplit(BASE, v, 10);
    TopSplit(v[..10]);
    ValBound(BASE, v[..10]);
    var low := V(v[..10]);
    var hi := v[9] / TOP + 32 * V(v[10..]);
    DivModUnique(V(v), TWO255, hi, low % TWO255);
    PowPositive(BASE, size);
    if limb > 0 {
      MulMonotone(1, limb, Pow(BASE, size));
    }
  }

  /** (2^26 - 1)^2, the largest product of two limbs. */
  const SQUARE: int := 0x3FF_FFFF * 0x3FF_FFFF

  predicate Columns(t: seq<int>, n: nat) { forall k :: 0 <= k < |t| ==> 0 <= t[k] <= n * SQUARE }

  lemma LimbProduct(x: int, y: int)
    requires 0 <= x < BASE && 0 <= y < BASE
    ensures 0 <= x * y <= SQUARE
  {
    MulMonotone(0, x, y);
    MulMonotone(x, BASE - 1, y);
    MulMonotone(y, BASE - 1, BASE - 1);
  }

  lemma FirstRowStep(done: seq<int>, y: seq<int>, v: int)
    requires |done| < |y| && V(done) == v * V(y[..|done|])
    ensures V(done + [v * y[|done|]]) == v * V(y[..|done| + 1])
  {
    hide Val, Pow;
    var i := |done|;
    ValSnoc(BASE, done, v * y[i]);
    ValNext(BASE, y, i);
    MulAssociates(v, y[i], Pow(BASE, i));
    MulDistributes(V(y[..i]), y[i] * Pow(BASE, i), v);
  }

  /** Columns of a product while row i is being added: those before i + j are done. */
  predicate MidRow(t: seq<int>, i: nat, j: nat) {
    forall k :: 0 <= k < |t| ==> 0 <= t[k] <= (if k < i + j then i + 1 else i) * SQUARE
  }

  lemma ColumnGrows(t: seq<int>, i: nat, j: nat, d: int)
    requires i + j < |t| && MidRow(t, i, j) && 0 <= d <= SQUARE
    ensures MidRow(t[i + j := t[i + j] + d], i, j + 1)
    ensures 0 <= t[i + j] + d <= (i + 1) * SQUARE
  {
  }

  lemma RowStarts(t: seq<int>, i: nat)
    requires Columns(t, i)
    ensures MidRow(t, i, 0)
  {
  }

  lemma RowEnds(t: seq<int>, i: nat, j: nat, d: int)
    requires MidRow(t, i, j) && 0 <= d <= SQUARE
    ensures Columns(t + [d], i + 1)
  {
  }

  lemma ColumnStep(done: seq<int>, t: seq<int>, carry: int)
    requires |done| < |t|
    requires V(done) + carry * Pow(BASE, |done|) == V(t[..|done|])
    ensures var i := |done|; var c := carry + t[i];
      V(done + [c % BASE]) + c / BASE * Pow(BASE, i + 1) == V(t[..i + 1])
  {
    hide Val, Pow;
    var i := |done|;
    CarryStep(BASE, done, carry, t[i], V(t[..i]));
    ValNext(BASE, t, i);
  }

  lemma ProductBound(x: seq<int>, y: seq<int>)
    requires Canonical(x) && Canonical(y)
    ensures 0 <= V(x) * V(y) < TWO255 * TWO255
  {
    hide Val, Pow;
    ValBound(BASE, x);
    ValBound(BASE, y);
    MulMonotone(0, V(x), V(y));
    MulMonotone(V(x), P, V(y));
    MulMonotone(V(y), P, P);
  }

  /** Twenty limbs hold a 510-bit product, so the last carry is zero. */
  lemma ProductFits(low: int, carry: int, n: int)
    requires 0 <= low && 0 <= carry && n < TWO255 * TWO255
    requires low + carry * Pow(BASE, 20) == n
    ensures carry == 0 && n < TWO255 * Pow(BASE, 10)
  {
    hide Pow;
    PowAdd(BASE, 10, 10);
    LimbWeights();
  }

  /** The limbs hold the residue of z^e. */
  predicate IsPower(s: seq<int>, z: int, e: nat) {
    Canonical(s) && V(s) % P == Pow(z, e) % P
  }

  // ---- Key bytes: Java bytes are signed, and an int made from one is sign-extended ----

  function Unsigned(s: seq<int8>): (r: seq<uint8>)
    ensures |r| == |s|
  {
    seq(|s|, i requires 0 <= i < |s| => s[i] as int % 256)
  }

  /** x >> n on a sign-extended int. */
  function ShiftRight(x: int32, n: nat): int {
    PowPositive(2, n);
    x / Pow(2, n)
  }

  /** x | 0x40 */
  function SetBit6(x: int8): int8 {
    if x / 64 % 2 == 1 then x else x + 64
  }

  /** x & 0xF8: the mask is positive, so the sign extension is dropped. */
  function Mask248(x: int8): uint8 {
    x % 256 / 8 * 8
  }

  function KeyByte(s: seq<int8>, i: nat): int32
    requires |s| == 32 && i < 32
  {
    if i == 31 then SetBit6(s[31]) else if i == 0 then Mask248(s[0]) else s[i]
  }

  lemma SmallPowers()
    ensures Pow(2, 0) == 1 && Pow(2, 1) == 2 && Pow(2, 2) == 4 && Pow(2, 3) == 8
    ensures Pow(2, 4) == 16 && Pow(2, 5) == 32 && Pow(2, 6) == 64 && Pow(2, 7) == 128
  {
  }

  /** The bit the loop reads is the bit of the clamped scalar. */
  lemma KeyBit(s: seq<int8>, i: nat, j: nat)
    requires |s| == 32 && i < 32 && j < 8 && (i == 31 ==> j <= 6)
    ensures (ShiftRight(KeyByte(s, i), j) % 2 == 1) == Bit(DecodeScalar(Unsigned(s)), 8 * i + j)
  {
    hide Val, Pow;
    var u := Unsigned(s);
    BitOfBytes(Clamp(u), 8 * i + j);
    assert (8 * i + j) / 8 == i && (8 * i + j) % 8 == j;
    SignedBit(s[i], j);
  }

  lemma SignedBit(x: int8, j: nat)
    requires j < 8
    ensures (ShiftRight(x, j) % 2 == 1) == Bit(x % 256, j)
    ensures (ShiftRight(Mask248(x), j) % 2 == 1) == Bit(x % 256 / 8 * 8, j)
    ensures j <= 6 ==> (ShiftRight(SetBit6(x), j) % 2 == 1) == Bit(x % 256 % 64 + 64, j)
  {
    hide Pow;
    LimbBits();
    HighBits(x % 256, x / 256, j, 8);
    assert x == x % 256 + 256 * (x / 256);
    if j <= 6 {
      BitBelow7(SetBit6(x), j);
      SetBit6Value(x);
    }
  }

  lemma SetBit6Value(x: int8)
    ensures SetBit6(x) % 128 == x % 256 % 64 + 64
  {
  }

  lemma BitBelow7(x: int32, j: nat)
    requires j <= 6
    ensures (ShiftRight(x, j) % 2 == 1) == Bit(x % 128, j)
  {
    hide Pow;
    SmallPowers();
    HighBits(x % 128, x / 128, j, 7);
    assert x == x % 128 + 128 * (x / 128);
  }

  // ---- Bytes and limbs: byte i starts at bit 8 i % 26 of limb 8 i / 26 ----

  function Word(i: nat): nat { 8 * i / 26 }
  function Offset(i: nat): nat { 8 * i % 26 }

  /** The int that keeps the low 32 bits of x. */
  function Wrap32(x: int): int32 {
    (x + 0x8000_0000) % 0x1_0000_0000 - 0x8000_0000
  }

  /** x << n on an int. */
  function ShiftLeft(x: int, n: nat): int32 {
    Wrap32(x * Pow(2, n))
  }

  /** x | y, where x lies below bit n and y has no bit below it. */
  function Or(x: int, y: int, n: nat): int
    requires 0 <= x < Pow(2, n)
    requires 0 < Pow(2, n) && y % Pow(2, n) == 0
  {
    x + y
  }

  lemma PositionWeight(i: nat)
    ensures Pow(256, i) == Pow(BASE, Word(i)) * Pow(2, Offset(i))
  {
    hide Pow;
    PowOfPow(2, 8, i);
    PowOfPow(2, 26, Word(i));
    PowAdd(2, 26 * Word(i), Offset(i));
    assert Pow(2, 8) == 256 && Pow(2, 26) == BASE by { LimbBits(); }
  }

  lemma LimbBits()
    ensures Pow(2, 6) == 64 && Pow(2, 8) == 256 && Pow(2, 18) == 0x4_0000 && Pow(2, 24) == 0x100_0000
    ensures Pow(2, 26) == BASE
  {
    SmallPowers();
    PowAdd(2, 8, 10);
    PowAdd(2, 6, 18);
    PowAdd(2, 2, 24);
    assert Pow(2, 8) == 256;
    TenBits();
  }

  /** The two halves of a limb cut at bit n. */
  lemma LimbCut(n: nat)
    requires n < 26
    ensures 0 < Pow(2, n) && 0 < Pow(2, 26 - n)
    ensures Pow(2, n) * Pow(2, 26 - n) == BASE
    ensures n <= 18 ==> Pow(2, 26 - n) % 256 == 0 && 256 <= Pow(2, 26 - n)
    ensures n % 2 == 0 && 18 < n ==> Pow(2, 26 - n) in {4, 16, 64}
  {
    hide Pow;
    PowPositive(2, n);
    PowPositive(2, 26 - n);
    PowAdd(2, n, 26 - n);
    LimbBits();
    SmallPowers();
    if n <= 18 {
      PowAdd(2, 8, 18 - n);
      PowPositive(2, 18 - n);
      MulGrows(Pow(2, 18 - n), 256);
    }
  }

  /** Limbs that hold the first 8 i bits of a number and nothing above them. */
  predicate Filled(x: seq<int>, i: nat) {
    && |x| == 10 && Word(i) < 10
    && (forall k :: 0 <= k < Word(i) ==> 0 <= x[k] < BASE)
    && 0 <= x[Word(i)] < Pow(2, Offset(i))
    && (forall k :: Word(i) < k < 10 ==> x[k] == 0)
  }

  /** A byte that fits below bit 26. */
  lemma LowByte(x: int, v: int, p: int, q: int)
    requires p * q == BASE && 0 <= x < p && 0 <= v < 256 <= q
    ensures 0 <= x + v * p < BASE
    ensures Wrap32(v * p) == v * p && v * p % p == 0
    ensures x + v * p < 256 * p
  {
    MulMonotone(0, v, p);
    MulMonotone(v, 255, p);
    MulMonotone(256, q, p);
    ModAddMultiple(0, v, p);
  }

  /** A byte that crosses bit 26: the int shift may overflow into the sign bit. */
  lemma HighByte(x: int, v: int, p: int, q: int)
    requires p * q == BASE && 0 <= x < p && 0 <= v < 256 && q in {4, 16, 64}
    ensures Wrap32(v * p) % p == 0
    ensures -0x8000_0000 <= x + Wrap32(v * p) < 0x8000_0000
    ensures (x + Wrap32(v * p)) % BASE == x + v * p % BASE
    ensures 0 <= x + v * p % BASE < BASE
    ensures v * p / BASE == v / q
    ensures q * (v / q) < 256
  {
    var y := v * p;
    var r, h := v % q, v / q;
    CrossSplit(v, p, q);
    WrapMod(y, BASE, 64);
    assert p in {0x100_0000, 0x40_0000, 0x10_0000};
    WrapMod(y, p, 64 * q);
    ModAddMultiple(0, v, p);
    var k := Wrap32(y) / BASE;
    DivModUnique(x + Wrap32(y), BASE, k, x + r * p);
    WrapRoom(Wrap32(y), p);
  }

  lemma WrapRoom(y: int32, p: int)
    requires p in {0x100_0000, 0x40_0000, 0x10_0000} && y % p == 0
    ensures y <= 0x8000_0000 - p
  {
  }

  /** A byte shifted to weight p, cut at bit 26. */
  lemma CrossSplit(v: int, p: int, q: int)
    requires p * q == BASE && 0 < p && 0 < q && 0 <= v
    ensures v * p / BASE == v / q && v * p % BASE == v % q * p
    ensures 0 <= v % q * p <= BASE - p
  {
    var r, h := v % q, v / q;
    assert v == h * q + r;
    MulDistributes(h * q, r, p);
    assert (h * q) * p == h * (p * q);
    MulMonotone(0, r, p);
    MulMonotone(r, q - 1, p);
    MulDistributes(q, -1, p);
    DivModUnique(v * p, BASE, h, r * p);
  }

  /** Cutting an int to 32 bits keeps residues modulo smaller powers of two. */
  lemma WrapMod(x: int, d: int, m: int)
    requires 0 < d && m * d == 0x1_0000_0000
    ensures Wrap32(x) % d == x % d
  {
    var k := (x + 0x8000_0000) / 0x1_0000_0000;
    assert Wrap32(x) == x - k * 0x1_0000_0000;
    MulAssociates(k, m, d);
    ModAddMultiple(x, -(k * m), d);
  }

  /** Writing one byte keeps the limbs in step with the bytes read so far. */
  lemma FilledLow(x: seq<int>, i: nat, v: uint8)
    requires Filled(x, i) && Offset(i) <= 18 && i < 32
    ensures var y := v * Pow(2, Offset(i));
      && 0 < Pow(2, Offset(i)) && y % Pow(2, Offset(i)) == 0 && ShiftLeft(v, Offset(i)) == y
      && 0 <= x[Word(i)] + y < BASE
      && Filled(x[Word(i) := x[Word(i)] + y], i + 1)
      && V(x[Word(i) := x[Word(i)] + y]) == V(x) + v * Pow(256, i)
  {
    hide Val, Pow;
    var w, n := Word(i), Offset(i);
    var y := v * Pow(2, n);
    LimbCut(n);
    LowByte(x[w], v, Pow(2, n), Pow(2, 26 - n));
    PositionWeight(i);
    ValUpdate(BASE, x, w, x[w] + y);
    assert y * Pow(BASE, w) == v * (Pow(BASE, w) * Pow(2, n));
    if n == 18 {
      LimbBits();
      SmallPowers();
    } else {
      PowAdd(2, n, 8);
      LimbBits();
    }
  }

  lemma FilledHigh(x: seq<int>, i: nat, v: uint8)
    requires Filled(x, i) && 18 < Offset(i) && i < 32
    ensures var p := Pow(2, Offset(i)); var y := ShiftLeft(v, Offset(i)); var w := Word(i);
      && 0 < p && y % p == 0 && w < 9
      && -0x8000_0000 <= x[w] + y < 0x8000_0000
      && 0 <= ShiftRight(v, 26 - Offset(i)) < BASE
      && Filled(x[w := (x[w] + y) % BASE][w + 1 := ShiftRight(v, 26 - Offset(i))], i + 1)
      && V(x[w := (x[w] + y) % BASE][w + 1 := ShiftRight(v, 26 - Offset(i))]) == V(x) + v * Pow(256, i)
  {
    hide Val, Pow;
    var w, n := Word(i), Offset(i);
    var p, q := Pow(2, n), Pow(2, 26 - n);
    Positions(i);
    LimbCut(n);
    HighByte(x[w], v, p, q);
    PositionWeight(i);
    CrossingValue(x, w, v, p, v / q, (x[w] + ShiftLeft(v, n)) % BASE);
    FilledCrossing(x, i, (x[w] + ShiftLeft(v, n)) % BASE, v / q);
  }

  lemma FilledCrossing(x: seq<int>, i: nat, low: int, h: int)
    requires Filled(x, i) && 18 < Offset(i) && i < 32
    requires 0 <= low < BASE && 0 <= h && Pow(2, 26 - Offset(i)) * h < 256
    ensures Filled(x[Word(i) := low][Word(i) + 1 := h], i + 1)
  {
    hide Pow;
    var n := Offset(i);
    Positions(i);
    assert Word(i + 1) == Word(i) + 1 && Offset(i + 1) == n - 18;
    LimbCut(n);
    assert h < Pow(2, n - 18) by {
      PowAdd(2, n - 18, 26 - n);
      LimbBits();
      if h >= Pow(2, n - 18) {
        MulMonotone(Pow(2, n - 18), h, Pow(2, 26 - n));
      }
    }
  }

  lemma Positions(i: nat)
    requires i < 32
    ensures Word(i) < 10 && Offset(i) < 26 && Offset(i) % 2 == 0
    ensures 18 < Offset(i) ==> Word(i) < 9
  {
  }

  lemma FilledAll(x: seq<int>)
    requires Filled(x, 32)
    ensures Limbs(x)
  {
    hide Pow;
    LimbCut(22);
    MulGrows(Pow(2, 4), Pow(2, 22));
  }

  lemma CrossingValue(x: seq<int>, w: nat, v: int, p: int, h: int, low: int)
    requires w + 1 < |x| && x[w + 1] == 0
    requires h == v * p / BASE && low == x[w] + v * p % BASE
    ensures V(x[w := low][w + 1 := h]) == V(x) + v * (Pow(BASE, w) * p)
  {
    hide Val, Pow;
    ValUpdate(BASE, x, w, low);
    ValUpdate(BASE, x[w := low], w + 1, h);
    SplitWeight(v * p, w);
    assert v * p * Pow(BASE, w) == v * (Pow(BASE, w) * p);
  }

  lemma SplitWeight(z: int, w: nat)
    ensures z % BASE * Pow(BASE, w) + z / BASE * Pow(BASE, w + 1) == z * Pow(BASE, w)
  {
    hide Pow;
    PowNext(BASE, w);
    var b := Pow(BASE, w);
    MulDistributes(z % BASE, z / BASE * BASE, b);
    assert z == z % BASE + z / BASE * BASE;
    assert z / BASE * (BASE * b) == (z / BASE * BASE) * b;
  }

  /** (byte) x */
  function ToByte(x: int): int8 {
    (x + 128) % 256 - 128
  }

  /** The byte that starts at bit n of limb w, read from that limb and the next one. */
  lemma LimbByte(x: seq<int>, w: nat, n: nat, unit: int)
    requires Limbs(x) && w < 10 && n < 26 && n % 2 == 0 && (18 < n ==> w < 9)
    requires unit == Pow(BASE, w) * Pow(2, n)
    ensures 0 < unit && 0 < Pow(2, n)
    ensures n <= 18 ==> V(x) / unit % 256 == x[w] / Pow(2, n) % 256
    ensures 18 < n ==> V(x) / unit % 256 == (x[w] / Pow(2, n) + x[w + 1] * Pow(2, 26 - n)) % 256
  {
    hide Val, Pow;
    var p, q, high := Pow(2, n), Pow(2, 26 - n), V(x[w + 1..]);
    LimbCut(n);
    ValAt(BASE, x, w);
    ValBound(BASE, x[..w]);
    ValBound(BASE, x[w + 1..]);
    BitsFrom(V(x), V(x[..w]), Pow(BASE, w), x[w], high, p, q);
    if n <= 18 {
      WholeBytes(x[w] / p, q, high);
    } else {
      ValHead(BASE, x[w + 1..]);
      assert x[w + 1..][1..] == x[w + 2..];
      NextLimb(x[w] / p, q, x[w + 1], V(x[w + 2..]));
    }
  }

  lemma BitsFrom(v: int, low: int, weight: int, limb: int, high: int, p: int, q: int)
    requires 0 < p && p * q == BASE && 0 <= low < weight && 0 <= limb && 0 <= high
    requires v == low + weight * (limb + BASE * high)
    ensures 0 < weight * p && v / (weight * p) == limb / p + q * high
  {
    DropLow(low, weight, limb + BASE * high, p);
    assert BASE * high == (q * high) * p;
    ModAddMultiple(limb, q * high, p);
  }

  lemma WholeBytes(low: int, q: int, high: int)
    requires q % 256 == 0
    ensures (low + q * high) % 256 == low % 256
  {
    var k := q / 256;
    assert q * high == (k * high) * 256;
    ModAddMultiple(low, k * high, 256);
  }

  lemma NextLimb(low: int, q: int, next: int, high: int)
    ensures (low + q * (next + BASE * high)) % 256 == (low + next * q) % 256
  {
    var k := q * high * 0x4_0000;
    assert q * (next + BASE * high) == next * q + k * 256;
    ModAddMultiple(low + next * q, k, 256);
  }

  /** The int arithmetic of the byte conversion: overflow above bit 31 is cut off again. */
  lemma PackedByte(x: int, y: int, n: nat)
    requires 0 <= x < BASE && 0 <= y < BASE && n % 2 == 0 && 18 < n < 26
    ensures 0 < Pow(2, n) && 0 < Pow(2, 26 - n)
    ensures 0 <= x / Pow(2, n) < Pow(2, 26 - n)
    ensures ShiftLeft(y, 26 - n) % Pow(2, 26 - n) == 0
    ensures ToByte(x / Pow(2, n) + ShiftLeft(y, 26 - n)) % 256 == (x / Pow(2, n) + y * Pow(2, 26 - n)) % 256
  {
    hide Pow;
    LimbCut(n);
    var p, q := Pow(2, n), Pow(2, 26 - n);
    WrapMod(y * q, q, 64 * p);
    ModAddMultiple(0, y, q);
    WrapMod(y * q, 256, 0x100_0000);
    ByteSum(x / p, Wrap32(y * q), y * q);
    QuotientBound(x, p, q);
  }

  lemma QuotientBound(x: int, p: int, q: int)
    requires 0 <= x < p * q && 0 < p
    ensures 0 <= x / p < q
  {
    if x / p >= q {
      MulMonotone(q, x / p, p);
    }
  }

  lemma ByteSum(low: int, y: int, z: int)
    requires y % 256 == z % 256
    ensures ToByte(low + y) as int % 256 == (low + z) % 256
  {
    var k := (low + y + 128) / 256;
    assert ToByte(low + y) == low + y - k * 256;
    ModAddMultiple(low + y, -k, 256);
    ModAddMultiple(low + z, y / 256 - z / 256, 256);
  }

  /** The byte made from bit n of limb w on. */
  function ByteFrom(x: seq<int32>, w: nat, n: nat): int8
    requires Limbs(x) && w < 10 && n < 26 && n % 2 == 0 && (18 < n ==> w < 9)
  {
    if n <= 26 - 8 then ToByte(ShiftRight(x[w], n))
    else
      PackedByte(x[w], x[w + 1], n);
      ToByte(Or(ShiftRight(x[w], n), ShiftLeft(x[w + 1], 26 - n), 26 - n))
  }

  lemma ByteFromValue(x: seq<int32>, w: nat, n: nat, unit: int)
    requires Limbs(x) && w < 10 && n < 26 && n % 2 == 0 && (18 < n ==> w < 9)
    requires unit == Pow(BASE, w) * Pow(2, n)
    ensures 0 < unit && ByteFrom(x, w, n) as int % 256 == V(x) / unit % 256
  {
    hide Val, Pow, ShiftLeft, ToByte;
    LimbByte(x, w, n, unit);
    if n > 18 {
      PackedByte(x[w], x[w + 1], n);
    } else {
      ByteSum(x[w] / Pow(2, n), 0, 0);
    }
  }

  lemma PackByteAt(x: seq<int32>, i: nat)
    requires Limbs(x) && i < 32
    ensures Word(i) < 10 && Offset(i) < 26 && Offset(i) % 2 == 0 && (18 < Offset(i) ==> Word(i) < 9)
    ensures ByteFrom(x, Word(i), Offset(i)) as int % 256 == ToDigits(256, V(x), 32)[i]
  {
    hide Val, Pow, ToDigits, ByteFrom;
    Positions(i);
    ValBound(BASE, x);
    PositionWeight(i);
    ByteFromValue(x, Word(i), Offset(i), Pow(256, i));
    DigitAt(256, V(x), 32, i);
  }
}
