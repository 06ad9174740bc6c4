/** tunnel/src/main/java/com/wireguard/crypto/Curve25519.java: the temporary state of one
    evaluation and the methods that overwrite it. */
module JavaCurve {
  import opened Numbers
  import opened Wrappers
  import opened Ladder
  import opened Masks
  import opened JavaLimbs

  /** The u-coordinate eval starts from. */
  function PointOf(publicKey: Option<seq<int8>>): Residue {
    match publicKey
    case None => 9
    case Some(key) => Val(256, Unsigned(key)) % P
  }

  class Curve25519 {
    const a: array<int32>
    const aa: array<int32>
    const b: array<int32>
    const bb: array<int32>
    const c: array<int32>
    const cb: array<int32>
    const d: array<int32>
    const da: array<int32>
    const e: array<int32>
    const t1: array<int64>
    const t2: array<int32>
    const x1: array<int32>
    const x2: array<int32>
    const x3: array<int32>
    const z2: array<int32>
    const z3: array<int32>

    /** `mul` never writes t1[19], so it has to stay zero for the whole run. */
    predicate Valid()
      reads t1
    {
      t1.Length == 20 && t2.Length == 20 && t1[19] == 0
    }

    constructor ()
      ensures Valid() && Separate()
      ensures fresh(a) && fresh(aa) && fresh(b) && fresh(bb) && fresh(c) && fresh(cb) && fresh(d) && fresh(da)
      ensures fresh(e) && fresh(t1) && fresh(t2) && fresh(x1) && fresh(x2) && fresh(x3) && fresh(z2) && fresh(z3)
    {
      x1 := new int32[10](_ => 0);
      x2 := new int32[10](_ => 0);
      x3 := new int32[10](_ => 0);
      z2 := new int32[10](_ => 0);
      z3 := new int32[10](_ => 0);
      a := new int32[10](_ => 0);
      b := new int32[10](_ => 0);
      c := new int32[10](_ => 0);
      d := new int32[10](_ => 0);
      e := new int32[10](_ => 0);
      aa := new int32[10](_ => 0);
      bb := new int32[10](_ => 0);
      da := new int32[10](_ => 0);
      cb := new int32[10](_ => 0);
      t1 := new int64[20](_ => 0);
      t2 := new int32[20](_ => 0);
    }

    /** The carry loop of `reduceQuick` and of the end of `reduce`: add a small number to ten limbs. */
    static method CarryInto(to: array<int32>, from: array<int32>, first: int32) returns (carry: int32)
      requires to != from && 10 <= to.Length && 10 <= from.Length && Digits(BASE, from[..10]) && 0 <= first <= 589
      modifies to
      ensures 0 <= carry <= 1 && Digits(BASE, to[..10])
      ensures V(to[..10]) + carry * Pow(BASE, 10) == V(from[..10]) + first
    {
      hide Val, Pow, Digits, Balanced;
      ghost var v := from[..10];
      ghost var r: seq<int> := [];
      BalancedStart(first);
      carry := first;
      for i := 0 to 10
        invariant forall k :: 0 <= k < 10 ==> from[k] == v[k]
        invariant 0 <= carry <= 589 && (0 < i ==> carry <= 1)
        invariant |r| == i && (forall k :: 0 <= k < i ==> to[k] == r[k]) && Digits(BASE, r)
        invariant Balanced(r, carry, V(v[..i]) + first)
      {
        CarryOn(r, carry, v, first);
        LimbAt(v, i);
        carry := carry + from[i];
        CarryRange(carry);
        DigitsSnoc(BASE, r, carry % BASE);
        to[i] := carry % BASE;
        r := r + [carry % BASE];
        carry := carry / BASE;
      }
      assert to[..10] == r && from[..10] == v == v[..10];
      BalancedEnd(r, carry, V(v) + first);
    }

    method ReduceQuick(x: array<int32>)
      requires Valid()
      requires x != t2 && x.Length == 10 && Limbs(x[..])
      modifies x, t2
      ensures Limbs(x[..])
      ensures V(x[..]) == QuickReduce(old(V(x[..])))
    {
      hide Val, Pow;
      ghost var v := x[..];
      assert x[..10] == v;
      var carry := CarryInto(t2, x, 19);
      ghost var sum := t2[..10];
      TrialSubtraction(v, sum, carry);
      var select := t2[9] / TOP % 2;
      t2[9] := t2[9] % TOP;
      ghost var low := sum[9 := sum[9] % TOP];
      assert t2[..10] == low;
      Select(x, t2, select);
    }

    /** Keep x or take the first ten limbs of t, with complementary masks. */
    static method Select(x: array<int32>, t: array<int32>, select: int32)
      requires x != t && x.Length == 10 <= t.Length && 0 <= select <= 1
      modifies x
      ensures x[..] == if select == 1 then t[..10] else old(x[..])
    {
      hide And32, Or32;
      var mask: int32 := -select;
      var nmask: int32 := BitNot(mask);
      for i := 0 to 10
        invariant forall k :: 0 <= k < 10 ==> x[k] == if k < i && select == 1 then t[k] else old(x[k])
      {
        Select32(select, x[i], t[i]);
        x[i] := Or32(And32(x[i], nmask), And32(t[i], mask));
      }
    }

    method Add(result: array<int32>, x: array<int32>, y: array<int32>)
      requires Valid()
      requires result != t2 && result.Length == x.Length == y.Length == 10
      requires Canonical(x[..]) && Canonical(y[..])
      modifies result, t2
      ensures Canonical(result[..])
      ensures V(result[..]) == FAdd(old(V(x[..])), old(V(y[..])))
    {
      hide Val, Pow;
      ValBound(BASE, x[..]);
      ValBound(BASE, y[..]);
      QuickReduceOnce(V(x[..]) + V(y[..]));
      AddLimbs(result, x, y);
      ReduceQuick(result);
    }

    /** The carry chain of `add`. `result` may be x or y. */
    static method AddLimbs(result: array<int32>, x: array<int32>, y: array<int32>)
      requires result.Length == x.Length == y.Length == 10
      requires Canonical(x[..]) && Canonical(y[..])
      modifies result
      ensures Limbs(result[..]) && V(result[..]) == old(V(x[..]) + V(y[..]))
    {
      hide Val, Pow, Digits, Balanced;
      ghost var v, w := x[..], y[..];
      BalancedStart(0);
      LimbAt(v, 0);
      LimbAt(w, 0);
      AddStep([], v, w, 0);
      var carry: int32 := x[0] + y[0];
      CarryRange(carry);
      DigitsSnoc(BASE, [], carry % BASE);
      result[0] := carry % BASE;
      ghost var r := [] + [carry % BASE];
      for i := 1 to 10
        invariant forall k :: i <= k < 10 ==> x[k] == v[k] && y[k] == w[k]
        invariant 0 <= carry < 2 * BASE
        invariant |r| == i && (forall k :: 0 <= k < i ==> result[k] == r[k]) && Digits(BASE, r)
        invariant Balanced(r, carry / BASE, V(v[..i]) + V(w[..i]))
      {
        AddStep(r, v, w, carry / BASE);
        LimbAt(v, i);
        LimbAt(w, i);
        CarryRange(carry);
        carry := carry / BASE + x[i] + y[i];
        CarryRange(carry);
        DigitsSnoc(BASE, r, carry % BASE);
        result[i] := carry % BASE;
        r := r + [carry % BASE];
      }
      assert v[..10] == v && w[..10] == w && r == result[..];
      CarryRange(carry);
      BalancedEnd(r, carry / BASE, V(v) + V(w));
      NoCarryOut(v, w, r, carry / BASE);
    }

    static method Sub(result: array<int32>, x: array<int32>, y: array<int32>)
      requires result.Length == x.Length == y.Length == 10
      requires Canonical(x[..]) && Canonical(y[..])
      modifies result
      ensures Canonical(result[..])
      ensures V(result[..]) == FSub(old(V(x[..])), old(V(y[..])))
    {
      hide Val, Pow, Digits;
      ghost var v, w := x[..], y[..];
      var borrow := SubLimbs(result, x, y);
      ghost var r := result[..];
      ghost var s, out := FoldBorrow(result, borrow);
      BorrowFold(v, w, r, s, borrow / BASE, out);
    }

    /** The first half of `sub`. `result` may be x or y. */
    static method SubLimbs(result: array<int32>, x: array<int32>, y: array<int32>) returns (borrow: int32)
      requires result.Length == x.Length == y.Length == 10 && Limbs(x[..]) && Limbs(y[..])
      modifies result
      ensures -BASE <= borrow < BASE && -1 <= borrow / BASE <= 0 && Limbs(result[..])
      ensures V(result[..]) + borrow / BASE * Pow(BASE, 10) == old(V(x[..]) - V(y[..]))
    {
      hide Val, Pow, Digits, Balanced;
      ghost var v, w := x[..], y[..];
      ghost var r: seq<int> := [];
      borrow := 0;
      BalancedStart(0);
      for i := 0 to 10
        invariant forall k :: i <= k < 10 ==> x[k] == v[k] && y[k] == w[k]
        invariant -BASE <= borrow < BASE
        invariant |r| == i && (forall k :: 0 <= k < i ==> result[k] == r[k]) && Digits(BASE, r)
        invariant Balanced(r, borrow / BASE, V(v[..i]) - V(w[..i]))
      {
        CarryRange(borrow);
        SubStep(r, v, w, borrow / BASE);
        LimbAt(v, i);
        LimbAt(w, i);
        borrow := x[i] - y[i] - borrow / BASE % 2;
        CarryRange(borrow);
        DigitsSnoc(BASE, r, borrow % BASE);
        result[i] := borrow % BASE;
        r := r + [borrow % BASE];
      }
      assert v[..10] == v && w[..10] == w && r == result[..];
      CarryRange(borrow);
      BalancedEnd(r, borrow / BASE, V(v) - V(w));
    }

    /** The second half of `sub`: take 19 off on a borrow and keep 255 bits. */
    static method FoldBorrow(result: array<int32>, borrowOut: int32) returns (ghost s: seq<int>, ghost out: int)
      requires result.Length == 10 && Limbs(result[..])
      requires -BASE <= borrowOut < BASE
      modifies result
      ensures Limbs(s) && result[..] == s[9 := s[9] % TOP]
      ensures -1 <= out <= 0
      ensures V(s) + out * Pow(BASE, 10) == old(V(result[..])) - if borrowOut / BASE % 2 == 1 then 19 else 0
    {
      hide Val, Pow, Digits, Balanced;
      ghost var r := result[..];
      var fix := if borrowOut / BASE % 2 == 1 then 19 else 0;
      BalancedStart(-fix);
      LimbAt(r, 0);
      CarryOn([], -fix, r, -fix);
      var borrow: int32 := result[0] - fix;
      CarryRange(borrow);
      DigitsSnoc(BASE, [], borrow % BASE);
      result[0] := borrow % BASE;
      s := [] + [borrow % BASE];
      for i := 1 to 10
        invariant forall k :: i <= k < 10 ==> result[k] == r[k]
        invariant -BASE <= borrow < BASE
        invariant |s| == i && (forall k :: 0 <= k < i ==> result[k] == s[k]) && Digits(BASE, s)
        invariant Balanced(s, borrow / BASE, V(r[..i]) - fix)
      {
        CarryRange(borrow);
        CarryOn(s, borrow / BASE, r, -fix);
        LimbAt(r, i);
        borrow := result[i] - borrow / BASE % 2;
        CarryRange(borrow);
        DigitsSnoc(BASE, s, borrow % BASE);
        result[i] := borrow % BASE;
        s := s + [borrow % BASE];
      }
      assert r[..10] == r && s == result[..];
      out := borrow / BASE;
      CarryRange(borrow);
      BalancedEnd(s, out, V(r) - fix);
      result[9] := result[9] % TOP;
    }

    method MulA24(result: array<int32>, x: array<int32>)
      requires Valid()
      requires result != t2 && x != t2 && result.Length == x.Length == 10
      requires Canonical(x[..])
      modifies result, t2
      ensures Canonical(result[..])
      ensures V(result[..]) == FMul(A24, old(V(x[..])))
    {
      hide Val, Pow, Digits;
      ValBound(BASE, x[..]);
      PowOne(BASE);
      ScaleInto(t2, x);
      Reduce(result, t2, 1);
    }

    /** The loop of `mulA24`: eleven limbs of 121665 times x. */
    static method ScaleInto(t: array<int32>, x: array<int32>)
      requires t != x && t.Length == 20 && x.Length == 10 && Limbs(x[..])
      modifies t
      ensures Digits(BASE, t[..11]) && V(t[..11]) == A24 * V(x[..])
    {
      hide Val, Pow, Digits, Balanced;
      ghost var v := x[..];
      var carry: int64 := 0;
      ghost var low: seq<int> := [];
      BalancedStart(0);
      for i := 0 to 10
        invariant forall k :: 0 <= k < 10 ==> x[k] == v[k]
        invariant 0 <= carry < A24
        invariant |low| == i && (forall k :: 0 <= k < i ==> t[k] == low[k]) && Digits(BASE, low)
        invariant Balanced(low, carry, A24 * V(v[..i]))
      {
        ScaleStep(low, v, carry);
        LimbAt(v, i);
        carry := carry + A24 * x[i];
        DigitsSnoc(BASE, low, carry % BASE);
        t[i] := carry % BASE;
        low := low + [carry % BASE];
        carry := carry / BASE;
      }
      t[10] := carry % BASE;
      DigitsSnoc(BASE, low, carry);
      assert t[..11] == low + [carry] && v[..10] == v;
      BalancedEnd(low, carry, A24 * V(v));
    }

    /** The first half of `reduce`: x becomes (x mod 2^255) + 19 * (x / 2^255). */
    method FoldHigh(x: array<int32>, size: nat)
      requires x.Length == 20 && 1 <= size <= 10 && Digits(BASE, x[..10 + size])
      requires V(x[..10 + size]) < TWO255 * Pow(BASE, size)
      requires V(x[..10 + size]) < TWO255 * TWO255
      modifies x
      ensures Limbs(x[..10])
      ensures V(x[..10]) == old(V(x[..10 + size])) % TWO255 + 19 * (old(V(x[..10 + size])) / TWO255)
    {
      hide Val, Pow;
      ghost var v := x[..10 + size];
      var limb: int32 := x[9] / TOP;
      x[9] := x[9] % TOP;
      ghost var m: seq<int> := v[..10][9 := v[9] % TOP];
      var carry, rest, h := StreamHigh(x, size, limb, m, v[10..]);
      HighPart(v, size, h, rest);
      FoldFits(V(v));
      PropagateCarry(x, size, carry, m, 19 * h);
    }

    /** Multiply the limbs above 2^255, 26 bits at a time, by 19 into the low limbs. */
    method StreamHigh(x: array<int32>, size: nat, limbIn: int32, ghost m: seq<int>, ghost high: seq<int>)
      returns (carry: int32, limb: int32, ghost h: int)
      requires x.Length == 20 && 1 <= size <= 10 && 0 <= limbIn <= 31
      requires Limbs(m) && |high| == size && Digits(BASE, high)
      requires x[..10] == m && x[10..10 + size] == high
      modifies x
      ensures forall k :: size <= k < 10 ==> x[k] == m[k]
      ensures Digits(BASE, x[..size])
      ensures 0 <= carry <= 19 && 0 <= limb && 0 <= h
      ensures h + limb * Pow(BASE, size) == limbIn + 32 * V(high)
      ensures V(x[..size]) + carry * Pow(BASE, size) == V(m[..size]) + 19 * h
    {
      carry, limb, h := 0, limbIn, 0;
      ghost var low: seq<int> := [];
      ValEmpty(BASE);
      assert Streamed(low, m, high, limbIn, 0, limb, h, carry);
      hide Val, Pow, Streamed, Digits;
      for i := 0 to size
        invariant forall k :: i <= k < 10 ==> x[k] == m[k]
        invariant forall k :: 10 <= k < 10 + size ==> x[k] == high[k - 10]
        invariant |low| == i && forall k :: 0 <= k < i ==> x[k] == low[k]
        invariant 0 <= carry <= 19 && 0 <= limb <= 31
        invariant Streamed(low, m, high, limbIn, i, limb, h, carry)
      {
        StreamedNext(low, m, high, limbIn, i, limb, h, carry);
        limb := limb + x[10 + i] * 32;
        carry := carry + limb % BASE * 19 + x[i];
        x[i] := carry % BASE;
        low := low + [carry % BASE];
        h := h + limb % BASE * Pow(BASE, i);
        limb := limb / BASE;
        carry := carry / BASE;
      }
      assert high[..size] == high && x[..size] == low;
      StreamedAll(low, m, high, limbIn, limb, h, carry);
    }

    /** Carry through the limbs the high half did not reach. */
    method PropagateCarry(x: array<int32>, size: nat, carryIn: int32, ghost m: seq<int>, ghost extra: int)
      requires x.Length == 20 && size <= 10 && Limbs(m)
      requires 0 <= carryIn <= 19 && (forall k :: size <= k < 10 ==> x[k] == m[k]) && Digits(BASE, x[..size])
      requires V(x[..size]) + carryIn * Pow(BASE, size) == V(m[..size]) + extra
      requires V(m) + extra < Pow(BASE, 10)
      modifies x
      ensures Limbs(x[..10])
      ensures V(x[..10]) == V(m) + extra
    {
      var carry: int32 := carryIn;
      ghost var low: seq<int> := x[..size];
      hide Val, Pow, Digits;
      LimbRange(m);
      for i := size to 10
        invariant forall k :: i <= k < 10 ==> x[k] == m[k]
        invariant 0 <= carry <= 19
        invariant |low| == i && (forall k :: 0 <= k < i ==> x[k] == low[k]) && Digits(BASE, low)
        invariant V(low) + carry * Pow(BASE, i) == V(m[..i]) + extra
      {
        CarryStep(BASE, low, carry, m[i], V(m[..i]) + extra);
        ValNext(BASE, m, i);
        carry := carry + x[i];
        DigitsSnoc(BASE, low, carry % BASE);
        x[i] := carry % BASE;
        low := low + [carry % BASE];
        carry := carry / BASE;
      }
      assert m[..10] == m && x[..10] == low;
      LimbWeights();
      ValBound(BASE, low);
    }

    method Reduce(result: array<int32>, x: array<int32>, size: nat)
      requires Valid()
      requires result != t2 && result != x && result.Length == 10 && x.Length == 20
      requires 1 <= size <= 10 && Digits(BASE, x[..10 + size])
      requires V(x[..10 + size]) < TWO255 * Pow(BASE, size)
      requires V(x[..10 + size]) < TWO255 * TWO255
      modifies result, x, t2
      ensures Canonical(result[..])
      ensures V(result[..]) == old(V(x[..10 + size])) % P
    {
      hide Val, Pow;
      ghost var v := V(x[..10 + size]);
      ValBound(BASE, x[..10 + size]);
      FoldHigh(x, size);
      ghost var w := V(x[..10]);
      ghost var u := x[..10];
      var carry: int32 := x[9] / TOP * 19;
      x[9] := x[9] % TOP;
      ghost var m := x[..10];
      assert m == u[9 := u[9] % TOP];
      TopSplit(u);
      carry := CarryInto(result, x, carry);
      assert result[..10] == result[..];
      ValBound(BASE, result[..]);
      FoldedTwice(v, w, V(result[..]), carry);
      ReduceQuick(result);
    }

    /** The schoolbook product, left in t1 without carries. t1[19] is not written. */
    method Product(x: array<int32>, y: array<int32>)
      requires Valid() && x.Length == y.Length == 10
      requires Limbs(x[..]) && Limbs(y[..])
      modifies t1
      ensures Valid()
      ensures Columns(t1[..19], 10)
      ensures V(t1[..19]) == V(x[..]) * V(y[..])
    {
      hide Val, Pow;
      ghost var vx, vy := x[..], y[..];
      var v: int64 := x[0];
      ValEmpty(BASE);
      ghost var done: seq<int> := [];
      for i := 0 to 10
        invariant t1[19] == 0
        invariant done == t1[..i] && Columns(done, 1)
        invariant V(done) == v * V(vy[..i])
      {
        LimbProduct(x[0], y[i]);
        FirstRowStep(done, vy, v);
        t1[i] := v * y[i];
        done := done + [v * y[i]];
      }
      assert vy[..10] == vy;
      ValNext(BASE, vx, 0);
      assert vx[..0] == [];
      for i := 1 to 10
        invariant t1[19] == 0
        invariant Columns(t1[..i + 9], i)
        invariant V(t1[..i + 9]) == V(vx[..i]) * V(vy)
      {
        Row(x, y, i);
        RowDone(BASE, vx, vy, i);
      }
      assert vx[..10] == vx;
    }

    /** Row i of the product: add x[i] * y, shifted by i limbs. */
    method Row(x: array<int32>, y: array<int32>, i: nat)
      requires Valid() && x.Length == y.Length == 10 && 1 <= i < 10
      requires Limbs(x[..]) && Limbs(y[..])
      requires Columns(t1[..i + 9], i)
      modifies t1
      ensures t1[19] == old(t1[19])
      ensures Columns(t1[..i + 10], i + 1)
      ensures V(t1[..i + 10]) == old(V(t1[..i + 9])) + x[i] * Pow(BASE, i) * V(y[..])
    {
      hide Val, Pow, Columns, MidRow;
      ghost var vy: seq<int>, t: seq<int> := y[..], t1[..i + 9];
      RowStarts(t, i);
      ghost var total := V(t);
      var v: int64 := x[i];
      ValEmpty(BASE);
      for j := 0 to 9
        invariant t1[19] == old(t1[19])
        invariant t == t1[..i + 9] && MidRow(t, i, j)
        invariant V(t) == total + v * Pow(BASE, i) * V(vy[..j])
      {
        LimbProduct(x[i], y[j]);
        RowStep(BASE, t, vy, i, j, v);
        ColumnGrows(t, i, j, v * y[j]);
        t1[i + j] := t1[i + j] + v * y[j];
        t := t[i + j := t[i + j] + v * y[j]];
      }
      LimbProduct(x[i], y[9]);
      RowEnds(t, i, 9, v * y[9]);
      t1[i + 9] := v * y[9];
      assert t1[..i + 10] == t + [v * y[9]];
      ValSnoc(BASE, t, v * y[9]);
      RowWeight(BASE, vy, i, 9, v);
      assert vy[..10] == vy;
    }

    method Mul(result: array<int32>, x: array<int32>, y: array<int32>)
      requires Valid()
      requires result != t2 && x != t2 && y != t2 && result.Length == x.Length == y.Length == 10
      requires Canonical(x[..]) && Canonical(y[..])
      modifies result, t1, t2
      ensures Valid()
      ensures Canonical(result[..])
      ensures V(result[..]) == FMul(old(V(x[..])), old(V(y[..])))
    {
      hide Val, Pow;
      ghost var n := V(x[..]) * V(y[..]);
      ProductBound(x[..], y[..]);
      Product(x, y);
      CarryColumns(n);
      Reduce(result, t2, 10);
    }

    /** Propagate carries through the columns and cut them into 26-bit limbs. */
    method CarryColumns(ghost n: int)
      requires Valid() && Columns(t1[..19], 10) && V(t1[..19]) == n < TWO255 * TWO255
      modifies t2
      ensures Digits(BASE, t2[..20]) && V(t2[..20]) == n < TWO255 * Pow(BASE, 10)
    {
      hide Val, Pow;
      ghost var t := t1[..];
      var v: int64 := t1[0];
      ValEmpty(BASE);
      ColumnStep([], t, 0);
      t2[0] := v % BASE;
      ghost var r := [] + [v % BASE];
      for i := 1 to 20
        invariant 0 <= v <= 11 * SQUARE
        invariant r == t2[..i] && Digits(BASE, r)
        invariant V(r) + v / BASE * Pow(BASE, i) == V(t[..i])
      {
        ColumnStep(r, t, v / BASE);
        assert i < 19 ==> t1[i] == t1[..19][i];
        v := v / BASE + t1[i];
        t2[i] := v % BASE;
        r := r + [v % BASE];
      }
      assert t[..20] == t && t[..19] == t1[..19];
      ValNext(BASE, t, 19);
      ValBound(BASE, r);
      ProductFits(V(r), v / BASE, n);
    }

    /** Multiplying two powers of z. `result` may be either factor. */
    method MulPowers(result: array<int32>, x: array<int32>, y: array<int32>, ghost z: int, ghost m: nat, ghost n: nat)
      requires Valid()
      requires result != t2 && x != t2 && y != t2 && result.Length == x.Length == y.Length == 10
      requires IsPower(x[..], z, m) && IsPower(y[..], z, n)
      modifies result, t1, t2
      ensures Valid() && IsPower(result[..], z, m + n)
    {
      hide Val, Pow;
      FMulPowers(z, V(x[..]), V(y[..]), m, n);
      Mul(result, x, y);
      ValBound(BASE, result[..]);
      ModSmall(V(result[..]), P);
    }

    /** x ^ (2^250 - 1): a repeated bit pattern, then nine shifted copies of it. */
    method Pow250(result: array<int32>, x: array<int32>)
      requires Valid() && a.Length == 10 && a != t2
      requires result.Length == x.Length == 10 && result !in {x, a, t2} && x !in {a, t2}
      requires Canonical(x[..])
      modifies result, a, t1, t2
      ensures Valid() && IsPower(result[..], V(x[..]), 1023 * Pattern(25))
    {
      hide Val, Pow, Pattern;
      ghost var z := V(x[..]);
      PowOne(z);
      MulPowers(a, x, x, z, 1, 1);
      ghost var n: nat := 2;
      PowOne(2);
      for j := 0 to 9
        invariant Valid() && n == Pow(2, j + 1) && IsPower(a[..], z, n)
      {
        PowNext(2, j + 1);
        MulPowers(a, a, a, z, n, n);
        n := n + n;
      }
      TenBits();
      MulPowers(result, a, x, z, n, 1);
      PatternStart();
      for i := 0 to 23
        invariant Valid()
        invariant n == Pow(1024, i + 1) && IsPower(a[..], z, n)
        invariant IsPower(result[..], z, Pattern(i + 2))
      {
        SquareTen(a, z, n);
        n := 1024 * n;
        PowNext(1024, i + 1);
        PatternNext(i + 2);
        MulPowers(result, result, a, z, Pattern(i + 2), n);
      }
      FillPattern(result, z, Pattern(25));
    }

    method SquareTen(a: array<int32>, ghost z: int, ghost e: nat)
      requires Valid() && a.Length == 10 && a != t2 && IsPower(a[..], z, e)
      modifies a, t1, t2
      ensures Valid() && IsPower(a[..], z, 1024 * e)
    {
      hide Val, Pow;
      ghost var n: nat := e;
      ghost var k := 1;
      ValEmpty(2);
      for j := 0 to 10
        invariant Valid() && k == Pow(2, j) && n == k * e && IsPower(a[..], z, n)
      {
        PowNext(2, j);
        MulPowers(a, a, a, z, n, n);
        MulDistributes(k, k, e);
        n, k := n + n, k + k;
      }
      assert Pow(2, 10) == 1024 by { TenBits(); }
    }

    method FillPattern(result: array<int32>, ghost z: int, ghost e: nat)
      requires Valid() && a.Length == 10 && a != t2
      requires result.Length == 10 && result !in {a, t2}
      requires IsPower(result[..], z, e)
      modifies result, a, t1, t2
      ensures Valid() && IsPower(result[..], z, 1023 * e)
    {
      hide Val, Pow;
      MulPowers(a, result, result, z, e, e);
      MulPowers(result, result, a, z, e, e + e);
      ghost var n: nat, k := 2 * e, 2;
      PowOne(2);
      PowNext(2, 1);
      for j := 0 to 8
        invariant Valid() && k == Pow(2, j + 1) && n == k * e
        invariant IsPower(a[..], z, n) && IsPower(result[..], z, n + n - e)
      {
        PowNext(2, j + 1);
        MulPowers(a, a, a, z, n, n);
        MulPowers(result, result, a, z, n + n - e, n + n);
        MulDistributes(k, k, e);
        n, k := n + n, k + k;
      }
      assert Pow(2, 9) == 512 by { TenBits(); }
    }

    /** x ^ (p - 2) */
    method Recip(result: array<int32>, x: array<int32>)
      requires Valid() && a.Length == 10 && a != t2
      requires result.Length == x.Length == 10 && result !in {x, a, t2} && x !in {a, t2}
      requires Canonical(x[..])
      modifies result, a, t1, t2
      ensures Valid() && Canonical(result[..])
      ensures V(result[..]) == FInv(V(x[..]))
    {
      hide Val, Pow, Pattern;
      ghost var z := V(x[..]);
      PowOne(z);
      TwoTo250();
      PatternSum(25);
      Pow250(result, x);
      ghost var n: nat := 1023 * Pattern(25);
      MulPowers(result, result, result, z, n, n);
      MulPowers(result, result, result, z, 2 * n, 2 * n);
      MulPowers(result, result, x, z, 4 * n, 1);
      MulPowers(result, result, result, z, 4 * n + 1, 4 * n + 1);
      MulPowers(result, result, result, z, 8 * n + 2, 8 * n + 2);
      MulPowers(result, result, x, z, 16 * n + 4, 1);
      MulPowers(result, result, result, z, 16 * n + 5, 16 * n + 5);
      MulPowers(result, result, x, z, 32 * n + 10, 1);
      ValBound(BASE, result[..]);
      ModSmall(V(result[..]), P);
    }

    /** Swap two field elements when select is 1. */
    static method CSwap(select: int32, x: array<int32>, y: array<int32>)
      requires x != y && x.Length == y.Length == 10 && 0 <= select <= 1
      modifies x, y
      ensures x[..] == old(if select == 1 then y[..] else x[..])
      ensures y[..] == old(if select == 1 then x[..] else y[..])
    {
      hide And32, Xor32;
      var mask: int32 := -select;
      for i := 0 to 10
        invariant forall k :: 0 <= k < 10 ==> x[k] == old(if k < i && select == 1 then y[k] else x[k])
        invariant forall k :: 0 <= k < 10 ==> y[k] == old(if k < i && select == 1 then x[k] else y[k])
      {
        Swap32(select, x[i], y[i]);
        var dummy := And32(mask, Xor32(x[i], y[i]));
        x[i] := Xor32(x[i], dummy);
        y[i] := Xor32(y[i], dummy);
      }
    }

    /** All temporaries have ten limbs and none is another's storage. */
    predicate Separate() {
      && a.Length == aa.Length == b.Length == bb.Length == c.Length == cb.Length == 10
      && d.Length == da.Length == e.Length == 10
      && x1.Length == x2.Length == x3.Length == z2.Length == z3.Length == 10
      && t2 !in {a, aa, b, bb, c, cb, d, da, e, x1, x2, x3, z2, z3}
      && a !in {aa, b, bb, c, cb, d, da, e, x1, x2, x3, z2, z3}
      && aa !in {b, bb, c, cb, d, da, e, x1, x2, x3, z2, z3}
      && b !in {bb, c, cb, d, da, e, x1, x2, x3, z2, z3}
      && bb !in {c, cb, d, da, e, x1, x2, x3, z2, z3}
      && c !in {cb, d, da, e, x1, x2, x3, z2, z3}
      && cb !in {d, da, e, x1, x2, x3, z2, z3}
      && d !in {da, e, x1, x2, x3, z2, z3}
      && da !in {e, x1, x2, x3, z2, z3}
      && e !in {x1, x2, x3, z2, z3}
      && x1 !in {x2, x3, z2, z3}
      && x2 !in {x3, z2, z3}
      && x3 !in {z2, z3}
      && z2 != z3
    }

    predicate Ready()
      reads t1, x1, x2, x3, z2, z3
    {
      && Valid() && Separate()
      && Canonical(x1[..]) && Canonical(x2[..]) && Canonical(x3[..]) && Canonical(z2[..]) && Canonical(z3[..])
    }

    /** The two points the limbs stand for. */
    ghost function Point(): Coords
      reads t1, x1, x2, x3, z2, z3
      requires Ready()
    {
      ValBound(BASE, x2[..]); ValBound(BASE, z2[..]); ValBound(BASE, x3[..]); ValBound(BASE, z3[..]);
      Coords(V(x2[..]), V(z2[..]), V(x3[..]), V(z3[..]))
    }

    ghost function U(): Residue
      reads t1, x1, x2, x3, z2, z3
      requires Ready()
    {
      ValBound(BASE, x1[..]);
      V(x1[..])
    }

    method LadderStep()
      requires Ready()
      modifies a, aa, b, bb, c, cb, d, da, e, t1, t2, x2, x3, z2, z3
      ensures Ready() && U() == old(U())
      ensures Point() == Step(U(), old(Point()))
    {
      hide Val, Pow, FMul, FAdd, FSub;
      ghost var p, u := Point(), V(x1[..]);
      Add(a, x2, z2);
      Mul(aa, a, a);
      Sub(b, x2, z2);
      Mul(bb, b, b);
      Sub(e, aa, bb);
      Add(c, x3, z3);
      Sub(d, x3, z3);
      Mul(da, d, a);
      Mul(cb, c, b);
      Add(x3, da, cb);
      Mul(x3, x3, x3);
      Sub(z3, da, cb);
      Mul(z3, z3, z3);
      Mul(z3, z3, x1);
      Mul(x2, aa, bb);
      MulA24(z2, e);
      Add(z2, z2, aa);
      Mul(z2, z2, e);
      ghost var E, AA := V(e[..]), V(aa[..]);
      ghost var DIFF := FSub(V(da[..]), V(cb[..]));
      FCommute(FMul(DIFF, DIFF), u);
      FCommute(FMul(A24, E), AA);
      FCommute(FAdd(AA, FMul(A24, E)), E);
    }

    /** The ladder over the 255 low bits of the key, clamping each byte as it is read. */
    method EvalCurve(s: seq<int8>)
      requires Ready() && |s| == 32
      modifies a, aa, b, bb, c, cb, d, da, e, t1, t2, x2, x3, z2, z3
      ensures Ready() && U() == old(U())
      ensures Point() == DeferredLadder(DecodeScalar(Unsigned(s)), U(), 255, false, old(Point()))
    {
      hide Val, Pow, DeferredLadder, Step, Bit, ShiftRight;
      ghost var k := DecodeScalar(Unsigned(s));
      var sposn, sbit := 31, 6;
      var svalue: int32 := SetBit6(s[sposn]);
      var swap := 0;
      while true
        invariant Ready() && U() == old(U())
        invariant 0 <= sposn <= 31 && 0 <= sbit <= 7 && (sposn == 31 ==> sbit <= 6) && 0 <= swap <= 1
        invariant svalue == KeyByte(s, sposn)
        invariant DeferredLadder(k, U(), 8 * sposn + sbit + 1, swap == 1, Point())
               == DeferredLadder(k, U(), 255, false, old(Point()))
        decreases 8 * sposn + sbit
      {
        KeyBit(s, sposn, sbit);
        LadderNext(k, U(), 8 * sposn + sbit, swap == 1, Point());
        var select := ShiftRight(svalue, sbit) % 2;
        SwapPoints(if swap == select then 0 else 1);
        swap := select;
        LadderStep();
        if sbit > 0 {
          sbit := sbit - 1;
        } else if sposn == 0 {
          break;
        } else if sposn == 1 {
          sposn := sposn - 1;
          svalue := Mask248(s[sposn]);
          sbit := 7;
        } else {
          sposn := sposn - 1;
          svalue := s[sposn];
          sbit := 7;
        }
      }
      LadderEnd(k, U(), swap == 1, Point());
      SwapPoints(swap);
    }

    method SwapPoints(select: int32)
      requires Ready() && 0 <= select <= 1
      modifies x2, x3, z2, z3
      ensures Ready() && U() == old(U())
      ensures Point() == Swap(select == 1, old(Point()))
    {
      hide Val, Pow;
      CSwap(select, x2, x3);
      CSwap(select, z2, z3);
    }

    /** Little-endian bytes into 26-bit limbs. */
    method Unpack(publicKey: seq<int8>)
      requires |publicKey| == 32 && x1.Length == 10
      requires forall k :: 0 <= k < 10 ==> x1[k] == 0
      modifies x1
      ensures Limbs(x1[..]) && V(x1[..]) == Val(256, Unsigned(publicKey))
    {
      hide Val, Pow, ShiftLeft, ShiftRight;
      ghost var u := Unsigned(publicKey);
      ValEmpty(256);
      ValEmpty(2);
      ValZero(BASE, x1[..]);
      ghost var x: seq<int> := x1[..];
      for i := 0 to 32
        invariant x == x1[..] && Filled(x, i)
        invariant V(x) == Val(256, u[..i])
      {
        var bit, word := Offset(i), Word(i);
        var value := publicKey[i] as int % 256;
        ValNext(256, u, i);
        if bit <= 26 - 8 {
          FilledLow(x, i, value);
          x1[word] := Or(x1[word], ShiftLeft(value, bit), bit);
          x := x[word := x[word] + ShiftLeft(value, bit)];
        } else {
          FilledHigh(x, i, value);
          x1[word] := Or(x1[word], ShiftLeft(value, bit), bit);
          x1[word] := x1[word] % BASE;
          x1[word + 1] := Or(x1[word + 1], ShiftRight(value, 26 - bit), 0);
          x := x[word := (x[word] + ShiftLeft(value, bit)) % BASE][word + 1 := ShiftRight(value, 26 - bit)];
        }
      }
      assert u[..32] == u;
      FilledAll(x);
    }

    /** x_2 as little-endian bytes, written from `offset` on. */
    method Pack(result: array<int8>, offset: nat)
      requires x2.Length == 10 && Canonical(x2[..]) && offset + 32 <= result.Length
      modifies result
      ensures Unsigned(result[offset..offset + 32]) == ToDigits(256, V(x2[..]), 32)
      ensures forall k :: 0 <= k < result.Length && !(offset <= k < offset + 32) ==> result[k] == old(result[k])
    {
      hide Val, Pow, ToDigits;
      ghost var x := x2[..];
      ghost var bytes := ToDigits(256, V(x), 32);
      ValBound(BASE, x);
      for i := 0 to 32
        invariant forall k :: 0 <= k < result.Length && !(offset <= k < offset + i) ==> result[k] == old(result[k])
        invariant forall k :: 0 <= k < i ==> result[offset + k] as int % 256 == bytes[k]
      {
        PackByteAt(x2[..], i);
        result[offset + i] := ByteFrom(x2[..], Word(i), Offset(i));
      }
    }

    /** x[0] = n and every other limb zero. */
    static method SetSmall(x: array<int32>, n: int32)
      requires x.Length == 10 && 0 <= n < BASE
      modifies x
      ensures Canonical(x[..]) && V(x[..]) == n
      ensures forall k :: 1 <= k < 10 ==> x[k] == 0
      ensures x[0] == n
    {
      hide Val, Pow;
      for i := 0 to 10
        invariant forall k :: 0 <= k < i ==> x[k] == 0
      {
        x[i] := 0;
      }
      ghost var zero := x[..];
      ValZero(BASE, zero);
      x[0] := n;
      assert x[..] == zero[0 := n];
      ValUpdate(BASE, zero, 0, n);
      ValEmpty(BASE);
    }

    /** x_1 from the caller's point, or 9. */
    method LoadPoint(publicKey: Option<seq<int8>>)
      requires Valid() && Separate()
      requires publicKey.Some? ==> |publicKey.value| == 32 && Val(256, Unsigned(publicKey.value)) < 2 * TWO255 - 19
      modifies x1, t2
      ensures Canonical(x1[..]) && V(x1[..]) == PointOf(publicKey)
    {
      hide Val, Pow;
      SetSmall(x1, 0);
      if publicKey.Some? {
        Unpack(publicKey.value);
        ValBound(BASE, x1[..]);
        QuickReduceTwice(V(x1[..]));
        ReduceQuick(x1);
        ReduceQuick(x1);
      } else {
        SetSmall(x1, 9);
      }
    }

    /** Curve25519.eval */
    static method Eval(result: array<int8>, offset: nat, privateKey: seq<int8>, publicKey: Option<seq<int8>>)
      requires offset + 32 <= result.Length && |privateKey| == 32
      requires publicKey.Some? ==> |publicKey.value| == 32 && Val(256, Unsigned(publicKey.value)) < 2 * TWO255 - 19
      modifies result
      ensures Unsigned(result[offset..offset + 32])
           == EncodeU(ScalarMult(DecodeScalar(Unsigned(privateKey)), PointOf(publicKey)))
      ensures forall k :: 0 <= k < result.Length && !(offset <= k < offset + 32) ==> result[k] == old(result[k])
    {
      hide Val, Pow, ToDigits, ScalarMult, DecodeScalar;
      var state := new Curve25519();
      state.Run(privateKey, publicKey);
      state.Pack(result, offset);
    }

    method Run(privateKey: seq<int8>, publicKey: Option<seq<int8>>)
      requires Valid() && Separate() && |privateKey| == 32
      requires publicKey.Some? ==> |publicKey.value| == 32 && Val(256, Unsigned(publicKey.value)) < 2 * TWO255 - 19
      modifies a, aa, b, bb, c, cb, d, da, e, t1, t2, x1, x2, x3, z2, z3
      ensures Canonical(x2[..])
      ensures V(x2[..]) == ScalarMult(DecodeScalar(Unsigned(privateKey)), PointOf(publicKey))
    {
      hide Val, Pow, DeferredLadder, DecodeScalar;
      LoadPoint(publicKey);
      StartPoints();
      EvalCurve(privateKey);
      Recip(z3, z2);
      Mul(x2, x2, z3);
    }

    /** x_2 = 1, z_2 = 0, x_3 = x_1, z_3 = 1. */
    method StartPoints()
      requires Valid() && Separate() && Canonical(x1[..])
      modifies x2, x3, z2, z3
      ensures Ready() && x1[..] == old(x1[..]) && Point() == Start(U())
    {
      hide Val, Pow;
      SetSmall(x2, 1);
      SetSmall(z2, 0);
      SetSmall(z3, 1);
      Copy(x3, x1);
    }

    static method Copy(target: array<int32>, source: array<int32>)
      requires target != source && target.Length == source.Length == 10
      modifies target
      ensures target[..] == source[..]
    {
      for i := 0 to 10
        invariant forall k :: 0 <= k < i ==> target[k] == source[k]
      {
        target[i] := source[i];
      }
    }
  }
}
