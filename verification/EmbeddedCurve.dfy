/** tunnel/tools/wireguard-tools/contrib/embeddable-wg-library/wireguard.c, the curve code:
    field elements are sixteen signed 64-bit limbs of 16 bits, carried lazily. */
module EmbeddedCurve {
  import opened Numbers
  import opened Ladder
  import opened Masks
  import opened EmbeddedLimbs

  /** Move what limb i has above 16 bits to the next limb, or 38 times that from the last to the first. */
  method CarryLimb(o: array<int64>, i: nat)
    requires o.Length == 16 && i < 16
    requires forall k :: 0 <= k < 16 ==>
      -0x3fff_ffff_ffff_ffff - 0x1_0000_0000_0000 <= o[k] <= 0x3fff_ffff_ffff_ffff + 0x1_0000_0000_0000
    modifies o
    ensures o[i] == old(o[i]) % BASE
    ensures i < 15 ==> o[i + 1] == old(o[i + 1]) + old(o[i]) / BASE
    ensures i == 15 ==> o[0] == old(o[0]) + 38 * (old(o[15]) / BASE)
    ensures forall k :: 0 <= k < 16 && k != i && k != (if i == 15 then 0 else i + 1) ==> o[k] == old(o[k])
  {
    o[(i + 1) % 16] := o[(i + 1) % 16] + (if i == 15 then 38 else 1) * (o[i] / BASE);
    o[i] := o[i] % BASE;
  }

  /** The limbs after i steps: d is done, c goes to limb i, or 38 * c to the first after the last. */
  ghost predicate CarriedTo(o: seq<int>, s: seq<int>, d: seq<int>, c: int, i: nat) {
    && |o| == |s| == 16 && |d| == i <= 16
    && if i < 16 then forall k :: 0 <= k < 16 ==> o[k] == if k < i then d[k] else if k == i then s[i] + c else s[k]
       else forall k :: 0 <= k < 16 ==> o[k] == if k == 0 then d[0] + 38 * c else d[k]
  }

  lemma CarriedNext(o: seq<int>, o': seq<int>, s: seq<int>, d: seq<int>, c: int, i: nat)
    requires i < 16 && CarriedTo(o, s, d, c, i) && |o'| == 16 && o'[i] == o[i] % BASE
    requires i < 15 ==> o'[i + 1] == o[i + 1] + o[i] / BASE
    requires i == 15 ==> o'[0] == o[0] + 38 * (o[15] / BASE)
    requires forall k :: 0 <= k < 16 && k != i && k != (if i == 15 then 0 else i + 1) ==> o'[k] == o[k]
    ensures o[i] == s[i] + c && CarriedTo(o', s, d + [o[i] % BASE], o[i] / BASE, i + 1)
  {
  }

  method Carry(o: array<int64>) returns (ghost d: seq<int>)
    requires o.Length == 16 && Within(o[..], 0x3fff_ffff_ffff_ffff)
    modifies o
    ensures Carried(old(o[..]), d, o[..])
  {
    ghost var s: seq<int> := o[..];
    ghost var c := 0;
    d := [];
    assert Digits(BASE, d) && CarriedTo(s, s, d, 0, 0);
    ValEmpty(BASE);
    hide Val, Pow, Digits, CarriedTo;
    for i := 0 to 16
      invariant |d| == i && Digits(BASE, d)
      invariant -0x1_0000_0000_0000 <= c <= 0x1_0000_0000_0000
      invariant W(d) + c * Pow(BASE, i) == W(s[..i])
      invariant CarriedTo(o[..], s, d, c, i)
    {
      ghost var o0: seq<int> := o[..];
      CarryStep(BASE, d, c, s[i], W(s[..i]));
      ValNext(BASE, s, i);
      LimbsBounded(o0, s, d, c, i);
      CarryLimb(o, i);
      CarriedNext(o0, o[..], s, d, c, i);
      CarryBound(o0[i]);
      DigitsSnoc(BASE, d, o0[i] % BASE);
      c := o0[i] / BASE;
      d := d + [o0[i] % BASE];
    }
    assert s[..16] == s;
    CarryOut(s, d, c);
    CarriedAll(o[..], s, d, c);
  }

  lemma LimbsBounded(o: seq<int>, s: seq<int>, d: seq<int>, c: int, i: nat)
    requires i < 16 && CarriedTo(o, s, d, c, i) && Within(s, 0x3fff_ffff_ffff_ffff) && Digits(BASE, d)
    requires -0x1_0000_0000_0000 <= c <= 0x1_0000_0000_0000
    ensures forall k :: 0 <= k < 16 ==>
      -0x3fff_ffff_ffff_ffff - 0x1_0000_0000_0000 <= o[k] <= 0x3fff_ffff_ffff_ffff + 0x1_0000_0000_0000
  {
  }

  lemma CarryBound(x: int)
    requires -0x3fff_ffff_ffff_ffff - 0x1_0000_0000_0000 <= x <= 0x3fff_ffff_ffff_ffff + 0x1_0000_0000_0000
    ensures -0x1_0000_0000_0000 <= x / BASE <= 0x1_0000_0000_0000 && 0 <= x % BASE < BASE
  {
  }

  lemma CarriedAll(o: seq<int>, s: seq<int>, d: seq<int>, c: int)
    requires CarriedTo(o, s, d, c, 16)
    ensures o == d[0 := d[0] + 38 * c]
  {
  }

  /** o = a * b: the columns of the product, folded at 2^256 and carried twice. o may be a or b. */
  method MultMod(o: array<int64>, a: array<int64>, b: array<int64>)
    requires o.Length == a.Length == b.Length == 16 && Small(a[..]) && Small(b[..])
    modifies o
    ensures Tight(o[..])
    ensures R(o[..]) == FMul(old(R(a[..])), old(R(b[..])))
  {
    hide Val, Pow, MidRow;
    var t := new int64[31](_ => 0);
    FieldCongruent(W(a[..]), W(b[..]));
    Product(t, a, b);
    ghost var columns: seq<int> := t[..];
    ghost var f := Fold(t);
    FoldColumns(columns, f);
    for i := 0 to 16
      invariant forall k :: 0 <= k < 16 ==> t[k] == f[k]
      invariant forall k :: 0 <= k < i ==> o[k] == f[k]
    {
      o[i] := t[i];
    }
    assert o[..] == f;
    ghost var d := Carry(o);
    CarriedOnce(f, d, o[..], 0x7fff_ffff_ffff);
    ghost var r: seq<int> := o[..];
    ghost var d' := Carry(o);
    CarriedTwice(f, d, r, d', o[..]);
  }

  method Product(t: array<int64>, a: array<int64>, b: array<int64>)
    requires t !in {a, b} && t.Length == 31 && a.Length == b.Length == 16 && Small(a[..]) && Small(b[..])
    requires forall k :: 0 <= k < 31 ==> t[k] == 0
    modifies t
    ensures MidRow(t[..], 16, 0) && W(t[..]) == W(a[..]) * W(b[..])
  {
    hide Val, Pow;
    ghost var x: seq<int>, y: seq<int> := a[..], b[..];
    ValZero(BASE, t[..]);
    ValEmpty(BASE);
    assert x[..0] == [];
    for i := 0 to 16
      invariant MidRow(t[..], i, 0)
      invariant W(t[..]) == W(x[..i]) * W(y)
    {
      Row(t, a, b, i);
      RowDone(BASE, x, y, i);
    }
    assert x[..16] == x;
  }

  method Row(t: array<int64>, a: array<int64>, b: array<int64>, i: nat)
    requires t !in {a, b} && t.Length == 31 && a.Length == b.Length == 16 && Small(a[..]) && Small(b[..])
    requires i < 16 && MidRow(t[..], i, 0)
    modifies t
    ensures MidRow(t[..], i + 1, 0)
    ensures W(t[..]) == old(W(t[..])) + a[i] * Pow(BASE, i) * W(b[..])
  {
    hide Val, Pow, MidRow;
    ghost var y: seq<int>, s: seq<int> := b[..], t[..];
    ghost var total := W(s);
    ValEmpty(BASE);
    assert y[..0] == [];
    for j := 0 to 16
      invariant |s| == 31 && (forall k :: 0 <= k < 31 ==> t[k] == s[k]) && MidRow(s, i, j)
      invariant W(s) == total + a[i] * Pow(BASE, i) * W(y[..j])
    {
      MulBounded(a[i], b[j], 0x4_0000, 0x4_0000);
      RowStep(BASE, s, y, i, j, a[i]);
      ColumnGrows(s, i, j, a[i] * b[j]);
      t[i + j] := t[i + j] + a[i] * b[j];
      s := s[i + j := s[i + j] + a[i] * b[j]];
    }
    NextRow(s, i, 16);
    assert t[..] == s && y[..16] == y;
  }

  method Fold(t: array<int64>) returns (ghost f: seq<int>)
    requires t.Length == 31 && MidRow(t[..], 16, 0)
    modifies t
    ensures |f| == 16 && Within(f, 0x7fff_ffff_ffff) && forall k :: 0 <= k < 16 ==> t[k] == f[k]
    ensures W(f) == old(W(t[..16]) + 38 * W(t[16..]))
  {
    hide Val, Pow, MidRow;
    ColumnsWithin(t[..]);
    ghost var low: seq<int>, high: seq<int> := t[..16], t[16..];
    f := low;
    ValEmpty(BASE);
    assert high[..0] == [];
    for i := 0 to 15
      invariant |f| == 16
      invariant forall k :: 0 <= k < 16 ==>
        t[k] == f[k] && f[k] == if k < i then low[k] + 38 * high[k] else low[k]
      invariant forall k :: 16 <= k < 31 ==> t[k] == high[k - 16]
      invariant W(f) == W(low) + 38 * W(high[..i])
    {
      ValUpdate(BASE, f, i, f[i] + 38 * high[i]);
      ValNext(BASE, high, i);
      MulAssociates(38, high[i], Pow(BASE, i));
      t[i] := t[i] + 38 * t[i + 16];
      f := f[i := f[i] + 38 * high[i]];
    }
    assert high[..15] == high;
  }

  /** o = i ^ (p - 2): 254 squarings, multiplying after all but those for bits 2 and 4. */
  method Invert(o: array<int64>, i: array<int64>)
    requires o.Length == i.Length == 16 && Tight(i[..])
    modifies o
    ensures Tight(o[..])
    ensures R(o[..]) == FInv(old(R(i[..])))
  {
    hide Val, Pow;
    ghost var z := W(i[..]);
    var c := Copy(i);
    ghost var e: nat := 1;
    PowOne(z);
    PowOne(2);
    var a := 253;
    while a >= 0
      invariant -1 <= a <= 253 && i[..] == old(i[..])
      invariant Tight(c[..]) && W(c[..]) % P == Pow(z, e) % P
      invariant e == Pow(2, 254 - a) - Deficit(a)
    {
      PowNext(2, 254 - a);
      FieldCongruent(W(c[..]), W(c[..]));
      FMulPowers(z, W(c[..]), W(c[..]), e, e);
      MultMod(c, c, c);
      ModSmall(Pow(z, e + e) % P, P);
      e := e + e;
      if a != 2 && a != 4 {
        FieldCongruent(W(c[..]), W(i[..]));
        FMulPowers(z, W(c[..]), W(i[..]), e, 1);
        MultMod(c, c, i);
        e := e + 1;
      }
      a := a - 1;
    }
    TwoTo255();
    assert e == P - 2;
    PowCongruent(z, e);
    CopyInto(o, c);
  }

  method Copy(s: array<int64>) returns (c: array<int64>)
    requires s.Length == 16
    ensures fresh(c) && c.Length == 16 && c[..] == s[..]
  {
    c := new int64[16](_ => 0);
    CopyInto(c, s);
  }

  method CopyInto(o: array<int64>, s: array<int64>)
    requires o.Length == s.Length == 16
    modifies o
    ensures o[..] == old(s[..])
  {
    for k := 0 to 16
      invariant forall l :: 0 <= l < 16 ==> s[l] == old(s[l])
      invariant forall l :: 0 <= l < k ==> o[l] == old(s[l])
    {
      o[k] := s[k];
    }
  }

  method Add(o: array<int64>, a: array<int64>, b: array<int64>)
    requires o.Length == a.Length == b.Length == 16 && Tight(a[..]) && Tight(b[..])
    modifies o
    ensures Small(o[..]) && R(o[..]) == FAdd(old(R(a[..])), old(R(b[..])))
  {
    hide Val, Pow;
    ghost var x: seq<int>, y: seq<int> := a[..], b[..];
    for i := 0 to 16
      invariant forall k :: 0 <= k < i ==> o[k] == x[k] + y[k]
      invariant forall k :: i <= k < 16 ==> a[k] == x[k] && b[k] == y[k]
    {
      o[i] := a[i] + b[i];
    }
    ValSum(x, y, o[..], 1);
    FieldCongruent(W(x), W(y));
  }

  method Subtract(o: array<int64>, a: array<int64>, b: array<int64>)
    requires o.Length == a.Length == b.Length == 16 && Tight(a[..]) && Tight(b[..])
    modifies o
    ensures Small(o[..]) && R(o[..]) == FSub(old(R(a[..])), old(R(b[..])))
  {
    hide Val, Pow;
    ghost var x: seq<int>, y: seq<int> := a[..], b[..];
    for i := 0 to 16
      invariant forall k :: 0 <= k < i ==> o[k] == x[k] - y[k]
      invariant forall k :: i <= k < 16 ==> a[k] == x[k] && b[k] == y[k]
    {
      o[i] := a[i] - b[i];
    }
    ValSum(x, y, o[..], -1);
    FieldCongruent(W(x), W(y));
  }

  /** Swap p and q when b is 1. */
  method CSwap(p: array<int64>, q: array<int64>, b: int)
    requires p != q && p.Length == q.Length == 16 && 0 <= b <= 1
    modifies p, q
    ensures p[..] == old(if b == 1 then q[..] else p[..])
    ensures q[..] == old(if b == 1 then p[..] else q[..])
  {
    hide And64, Xor64;
    var c: int64 := BitNot(b - 1);
    for i := 0 to 16
      invariant forall k :: 0 <= k < 16 ==> p[k] == old(if k < i && b == 1 then q[k] else p[k])
      invariant forall k :: 0 <= k < 16 ==> q[k] == old(if k < i && b == 1 then p[k] else q[k])
    {
      Swap64(b, p[i], q[i]);
      var t := And64(c, Xor64(p[i], q[i]));
      p[i] := Xor64(p[i], t);
      q[i] := Xor64(q[i], t);
    }
  }

  /** The little-endian bytes of the residue of n. */
  method Pack(o: array<uint8>, n: array<int64>)
    requires o.Length == 32 && n.Length == 16 && Within(n[..], 0x3fff_ffff_ffff_ffff)
    modifies o
    ensures o[..] == ToDigits(256, W(old(n[..])) % P, 32)
  {
    hide Val, Pow, ToDigits;
    ghost var s: seq<int> := n[..];
    var t := Copy(n);
    ghost var d1 := Carry(t);
    ghost var r1: seq<int> := t[..];
    CarriedOnce(s, d1, r1, 0x3fff_ffff_ffff_ffff);
    ghost var d2 := Carry(t);
    ghost var r2: seq<int> := t[..];
    CarriedOnce(r1, d2, r2, 0x1_0000_0000_0000_0000);
    ghost var d3 := Carry(t);
    CarriedThrice(s, d1, r1, d2, r2, d3, t[..]);
    ghost var v := W(t[..]);
    var m := new int64[16](_ => 0);
    TrialSubtract(t, m);
    TrialSubtract(t, m);
    ReducedTwice(v);
    ToBytes(o, t);
  }

  /** Subtract p from t, in m, and swap the two unless that went negative. */
  method TrialSubtract(t: array<int64>, m: array<int64>)
    requires t != m && t.Length == m.Length == 16 && Digits(BASE, t[..])
    modifies t, m
    ensures Digits(BASE, t[..]) && W(t[..]) == ReduceOnce(old(W(t[..])))
  {
    hide Val, Pow;
    var b := SubtractP(t, m);
    CSwap(t, m, 1 - b);
  }

  /** m[i] = t[i] - sub - the borrow of m[i - 1], which is reduced. */
  method BorrowLimb(t: array<int64>, m: array<int64>, i: nat, sub: int)
    requires t != m && t.Length == m.Length == 16 && 1 <= i < 16 && 0 <= t[i] < BASE && 0 <= sub < BASE
    modifies m
    ensures m[i] == t[i] - sub - old(m[i - 1]) / BASE % 2 && -BASE <= m[i] < BASE
    ensures m[i - 1] == old(m[i - 1]) % BASE
    ensures forall k :: 0 <= k < 16 && k != i && k != i - 1 ==> m[k] == old(m[k])
  {
    m[i] := t[i] - sub - m[i - 1] / BASE % 2;
    m[i - 1] := m[i - 1] % BASE;
  }

  /** The first i limbs of s - p: d, and `last` on top, which may still be negative. */
  ghost predicate Borrowed(d: seq<int>, s: seq<int>, i: nat, last: int) {
    && 1 <= i <= 16 && |s| == 16 && |d| == i - 1 && Digits(BASE, d) && -BASE <= last < BASE
    && W(d) + last * Pow(BASE, i - 1) == W(s[..i]) - W(PDigits()[..i])
  }

  lemma BorrowedFirst(s: seq<int>)
    requires |s| == 16 && Digits(BASE, s)
    ensures Borrowed([], s, 1, s[0] - 0xffed)
  {
    ValEmpty(BASE);
    BorrowStart(s);
  }

  lemma BorrowedNext(d: seq<int>, s: seq<int>, i: nat, last: int)
    requires i < 16 && Borrowed(d, s, i, last) && Digits(BASE, s)
    ensures Borrowed(d + [last % BASE], s, i + 1, s[i] - (if i == 15 then 0x7fff else 0xffff) - last / BASE % 2)
  {
    hide Val, Pow, PDigits;
    BorrowStep(d, s, i, last);
  }

  lemma BorrowedLast(d: seq<int>, s: seq<int>, last: int)
    requires Borrowed(d, s, 16, last) && Digits(BASE, s)
    ensures last < 0 ==> W(s) < P
    ensures 0 <= last ==> P <= W(s) && W(d + [last]) == W(s) - P && Digits(BASE, d + [last])
  {
    hide Val, Pow, PDigits;
    BorrowEnd(d, s, last);
  }

  method SubtractLimbs(t: array<int64>, m: array<int64>) returns (ghost d: seq<int>)
    requires t != m && t.Length == m.Length == 16 && Digits(BASE, t[..])
    modifies m
    ensures Borrowed(d, t[..], 16, m[15]) && m[..] == d + [m[15]]
  {
    ghost var s: seq<int> := t[..];
    assert forall k :: 0 <= k < 16 ==> 0 <= s[k] == t[k] < BASE;
    hide Val, Pow, PDigits, Digits, Borrowed;
    m[0] := t[0] - 0xffed;
    d := [];
    BorrowedFirst(s);
    for i := 1 to 15
      invariant |d| == i - 1 && Borrowed(d, s, i, m[i - 1])
      invariant forall k :: 0 <= k < i - 1 ==> m[k] == d[k]
    {
      ghost var last := m[i - 1];
      BorrowedNext(d, s, i, last);
      BorrowLimb(t, m, i, 0xffff);
      d := d + [last % BASE];
    }
    ghost var last := m[14];
    BorrowedNext(d, s, 15, last);
    BorrowLimb(t, m, 15, 0x7fff);
    d := d + [last % BASE];
  }

  /** m = t - p; b tells whether that is negative. */
  method SubtractP(t: array<int64>, m: array<int64>) returns (b: int)
    requires t != m && t.Length == m.Length == 16 && Digits(BASE, t[..])
    modifies m
    ensures 0 <= b <= 1
    ensures b == 1 ==> W(t[..]) < P
    ensures b == 0 ==> P <= W(t[..]) && Digits(BASE, m[..]) && W(m[..]) == W(t[..]) - P
  {
    hide Val, Pow, PDigits, Digits;
    ghost var d := SubtractLimbs(t, m);
    b := m[15] / BASE % 2;
    SignBit(m[15]);
    BorrowedLast(d, t[..], m[15]);
  }

  lemma SignBit(x: int)
    requires -BASE <= x < BASE
    ensures x / BASE % 2 == if x < 0 then 1 else 0
  {
  }

  method ToBytes(o: array<uint8>, t: array<int64>)
    requires o.Length == 32 && t.Length == 16 && Digits(BASE, t[..])
    modifies o
    ensures o[..] == ToDigits(256, W(t[..]), 32)
  {
    hide Val, Pow, ToDigits;
    ghost var s: seq<int> := t[..];
    ghost var d: seq<int> := [];
    ValEmpty(BASE);
    ValEmpty(256);
    assert s[..0] == [];
    for i := 0 to 16
      invariant |d| == 2 * i && Digits(256, d) && forall k :: 0 <= k < 2 * i ==> o[k] == d[k]
      invariant Val(256, d) == W(s[..i])
    {
      TwoBytes(d, s, i);
      o[2 * i] := t[i] % 256;
      o[2 * i + 1] := t[i] / 256;
      d := d + [t[i] % 256] + [t[i] / 256];
    }
    assert s[..16] == s && o[..] == d;
    ValBound(BASE, s);
    Weight16();
    Bytes32Bound();
    ValOfDigits(256, W(s), 32);
    ValInjective(256, d, ToDigits(256, W(s), 32));
  }

  /** A constant element: the digits of a number below 2^32. */
  method Constant(n: nat) returns (c: array<int64>)
    requires n < 0x1_0000_0000
    ensures fresh(c) && c.Length == 16 && Tight(c[..]) && W(c[..]) == n
  {
    hide Val, Pow;
    c := new int64[16](_ => 0);
    ghost var zero: seq<int> := c[..];
    ValZero(BASE, zero);
    c[0] := n % BASE;
    c[1] := n / BASE;
    ValUpdate(BASE, zero, 0, n % BASE);
    ValUpdate(BASE, zero[0 := n % BASE], 1, n / BASE);
    ValEmpty(BASE);
    PowOne(BASE);
    assert c[..] == zero[0 := n % BASE][1 := n / BASE];
  }

  ghost predicate Distinct(a: array<int64>, b: array<int64>, c: array<int64>, d: array<int64>, e: array<int64>,
                           f: array<int64>) {
    && a.Length == b.Length == c.Length == d.Length == e.Length == f.Length == 16
    && a !in {b, c, d, e, f} && b !in {c, d, e, f} && c !in {d, e, f} && d !in {e, f} && e != f
  }

  ghost predicate TightPoint(a: array<int64>, b: array<int64>, c: array<int64>, d: array<int64>)
    reads a, b, c, d
  {
    Tight(a[..]) && Tight(b[..]) && Tight(c[..]) && Tight(d[..])
  }

  /** a, c hold (x_2 : z_2) and b, d hold (x_3 : z_3). */
  ghost function Point(a: array<int64>, b: array<int64>, c: array<int64>, d: array<int64>): Coords
    reads a, b, c, d
  {
    Coords(R(a[..]), R(c[..]), R(b[..]), R(d[..]))
  }

  method LadderStep(a: array<int64>, b: array<int64>, c: array<int64>, d: array<int64>, e: array<int64>,
                    f: array<int64>)
    requires Distinct(a, b, c, d, e, f) && TightPoint(a, b, c, d)
    modifies a, b, c, d, e, f
    ensures TightPoint(a, b, c, d)
    ensures Point(a, b, c, d) == Step(9, old(Point(a, b, c, d)))
  {
    hide Val, Pow, FMul, FAdd, FSub, Step, R, Tight, Small;
    StepReordered(9, Point(a, b, c, d));
    Add(e, a, c);
    Subtract(a, a, c);
    Add(c, b, d);
    Subtract(b, b, d);
    MultMod(d, e, e);
    MultMod(f, a, a);
    MultMod(a, c, a);
    MultMod(c, b, e);
    Add(e, a, c);
    Subtract(a, a, c);
    MultMod(b, a, a);
    Subtract(c, d, f);
    var a24 := Constant(0x1_db41);
    ConstantResidue(a24[..], A24);
    TightIsSmall(a24[..]);
    MultMod(a, c, a24);
    Add(a, a, d);
    MultMod(c, c, a);
    TightIsSmall(d[..]);
    TightIsSmall(f[..]);
    MultMod(a, d, f);
    var nine := Constant(9);
    ConstantResidue(nine[..], 9);
    TightIsSmall(nine[..]);
    TightIsSmall(b[..]);
    MultMod(d, b, nine);
    MultMod(b, e, e);
  }

  method CSwapPoint(a: array<int64>, b: array<int64>, c: array<int64>, d: array<int64>, r: int)
    requires a !in {b, c, d} && b !in {c, d} && c != d && a.Length == b.Length == c.Length == d.Length == 16
    requires TightPoint(a, b, c, d) && 0 <= r <= 1
    modifies a, b, c, d
    ensures TightPoint(a, b, c, d) && Point(a, b, c, d) == Swap(r == 1, old(Point(a, b, c, d)))
  {
    hide Tight, R;
    CSwap(a, b, r);
    CSwap(c, d, r);
  }

  /** Clear the three low bits and the top bit of the scalar and set bit 254. */
  method ClampKey(z: array<uint8>)
    requires z.Length == 32
    modifies z
    ensures z[..] == Clamp(old(z[..]))
  {
    z[31] := z[31] % 128 % 64 + 64;
    z[0] := z[0] / 8 * 8;
  }

  /** The 255 steps of the ladder for a clamped key. */
  method RunLadder(a: array<int64>, b: array<int64>, c: array<int64>, d: array<int64>, z: array<uint8>)
    requires z.Length == 32 && a.Length == b.Length == c.Length == d.Length == 16
    requires a !in {b, c, d} && b !in {c, d} && c != d && TightPoint(a, b, c, d)
    modifies a, b, c, d
    ensures TightPoint(a, b, c, d)
    ensures 0 <= Val(256, z[..])
    ensures Point(a, b, c, d) == SimpleLadder(Val(256, z[..]), 9, 255, old(Point(a, b, c, d)))
  {
    hide Val, Pow, Tight, R, SimpleLadder, Step, Bit;
    ghost var key: seq<uint8> := z[..];
    ghost var start := Point(a, b, c, d);
    var e := new int64[16](_ => 0);
    var f := new int64[16](_ => 0);
    ValBound(256, key);
    var i := 254;
    while i >= 0
      invariant -1 <= i <= 254 && z[..] == key
      invariant TightPoint(a, b, c, d)
      invariant SimpleLadder(Val(256, key), 9, i + 1, Point(a, b, c, d)) == SimpleLadder(Val(256, key), 9, 255, start)
    {
      var r := ByteBit(z[i / 8], i % 8);
      KeyBit(key, i);
      SimpleNext(Val(256, key), 9, i, Point(a, b, c, d));
      CSwapPoint(a, b, c, d, r);
      LadderStep(a, b, c, d, e, f);
      CSwapPoint(a, b, c, d, r);
      i := i - 1;
    }
    SimpleNext(Val(256, key), 9, 0, Point(a, b, c, d));
  }

  /** x_2 / z_2 as bytes. */
  method Finish(publicKey: array<uint8>, a: array<int64>, c: array<int64>)
    requires publicKey.Length == 32 && a.Length == c.Length == 16 && a != c && Tight(a[..]) && Tight(c[..])
    modifies publicKey, a, c
    ensures publicKey[..] == EncodeU(FMul(old(R(a[..])), FInv(old(R(c[..])))))
  {
    hide Val, Pow, ToDigits, FMul, FInv;
    Invert(c, c);
    MultMod(a, a, c);
    Pack(publicKey, a);
  }

  method WgGeneratePublicKey(publicKey: array<uint8>, privateKey: Bytes32)
    requires publicKey.Length == 32
    modifies publicKey
    ensures publicKey[..] == EncodeU(ScalarMult(DecodeScalar(privateKey), 9))
  {
    hide Val, Pow, Tight, R, SimpleLadder, DeferredLadder, ToDigits;
    var z := new uint8[32](k requires 0 <= k < 32 => privateKey[k]);
    assert z[..] == privateKey;
    ClampKey(z);
    var a := Constant(1);
    var b := Constant(9);
    var c := Constant(0);
    var d := Constant(1);
    ConstantResidue(a[..], 1);
    ConstantResidue(b[..], 9);
    ConstantResidue(c[..], 0);
    ConstantResidue(d[..], 1);
    RunLadder(a, b, c, d, z);
    DeferredSwapsAgree(DecodeScalar(privateKey), 9, 255, false, Start(9));
    Finish(publicKey, a, c);
  }
}
