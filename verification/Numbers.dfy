/** Powers, positional numbers and their bounds: the arithmetic that the two X25519
    implementations, the byte codecs and the limb carry chains all share. */
module Numbers {

  type int8 = x: int | -0x80 <= x < 0x80
  type uint8 = x: int | 0 <= x < 0x100
  type uint16 = x: int | 0 <= x < 0x1_0000
  type uint32 = x: int | 0 <= x < 0x1_0000_0000
  type int32 = x: int | -0x8000_0000 <= x < 0x8000_0000
  type int64 = x: int | -0x8000_0000_0000_0000 <= x < 0x8000_0000_0000_0000

  function Pow(b: int, e: nat): int {
    if e == 0 then 1 else b * Pow(b, e - 1)
  }

  lemma PowOne(b: int)
    ensures Pow(b, 1) == b
  {
    assert Pow(b, 0) == 1;
  }

  lemma PowNext(b: int, e: nat)
    ensures Pow(b, e + 1) == b * Pow(b, e)
  {
  }

  lemma {:induction false} PowPositive(b: int, e: nat)
    requires 0 < b
    ensures 0 < Pow(b, e)
  {
    if e > 0 {
      PowPositive(b, e - 1);
      MulPositive(b, Pow(b, e - 1));
    }
  }

  lemma {:induction false} PowAdd(b: int, m: nat, n: nat)
    ensures Pow(b, m + n) == Pow(b, m) * Pow(b, n)
  {
    if m > 0 {
      PowAdd(b, m - 1, n);
      MulAssociates(b, Pow(b, m - 1), Pow(b, n));
    }
  }

  lemma {:induction false} PowOfPow(b: int, m: nat, n: nat)
    ensures 0 <= m * n
    ensures Pow(Pow(b, m), n) == Pow(b, m * n)
    decreases n
  {
    if n == 0 {
    } else {
      PowOfPow(b, m, n - 1);
      assert m * n == m + m * (n - 1);
      PowAdd(b, m, m * (n - 1));
    }
  }

  lemma {:induction false} PowGrows(b: int, m: nat, n: nat)
    requires 1 < b && m <= n
    ensures Pow(b, m) <= Pow(b, n)
    decreases n
  {
    if m < n {
      PowGrows(b, m, n - 1);
      PowPositive(b, n - 1);
      MulGrows(b, Pow(b, n - 1));
    }
  }

  // ---- Multiplication facts the solver needs one at a time ----

  lemma MulPositive(x: int, y: int)
    requires 0 < x && 0 < y
    ensures 0 < x * y
  {
  }

  lemma MulGrows(x: int, y: int)
    requires 1 <= x && 0 <= y
    ensures y <= x * y
  {
  }

  lemma MulAssociates(x: int, y: int, z: int)
    ensures x * (y * z) == (x * y) * z
  {
  }

  lemma MulDistributes(x: int, y: int, z: int)
    ensures (x + y) * z == x * z + y * z
    ensures z * (x + y) == z * x + z * y
  {
  }

  lemma MulMonotone(x: int, y: int, z: int)
    requires x <= y && 0 <= z
    ensures x * z <= y * z
    ensures z * x <= z * y
  {
  }

  /** Both factors are bounded in absolute value, so the product is. */
  lemma MulBounded(x: int, y: int, m: int, n: int)
    requires -m <= x <= m && -n <= y <= n
    ensures -(m * n) <= x * y <= m * n
  {
    if 0 <= x {
      MulMonotone(-n, y, x); MulMonotone(y, n, x);
      MulMonotone(x, m, n);
    } else {
      MulMonotone(-n, y, -x); MulMonotone(y, n, -x);
      MulMonotone(-x, m, n);
    }
  }

  /** The quotient and remainder of a Euclidean division are unique. */
  lemma DivModUnique(x: int, d: int, q: int, r: int)
    requires 0 < d && 0 <= r < d && x == q * d + r
    ensures x / d == q && x % d == r
  {
    var q', r' := x / d, x % d;
    assert x == q' * d + r';
    assert (q - q') * d == r' - r;
    if q > q' {
      MulMonotone(1, q - q', d);
    } else if q < q' {
      MulMonotone(q - q', -1, d);
    }
  }

  lemma ModAddMultiple(x: int, k: int, d: int)
    requires 0 < d
    ensures (x + k * d) % d == x % d
    ensures (x + k * d) / d == x / d + k
  {
    var q, r := x / d, x % d;
    assert x == q * d + r;
    MulDistributes(q, k, d);
    DivModUnique(x + k * d, d, q + k, r);
  }

  lemma ModSmall(x: int, d: int)
    requires 0 <= x < d
    ensures x % d == x && x / d == 0
  {
    DivModUnique(x, d, 0, x);
  }

  // ---- Positional numbers ----

  /** The number whose base-`b` digits, least significant first, are `s`. Digits may be
      negative or too large: a lazily carried limb array still has a value. */
  function Val(b: int, s: seq<int>): int {
    if s == [] then 0 else Val(b, s[..|s| - 1]) + s[|s| - 1] * Pow(b, |s| - 1)
  }

  predicate Digits(b: int, s: seq<int>) {
    forall i :: 0 <= i < |s| ==> 0 <= s[i] < b
  }

  lemma DigitsSnoc(b: int, s: seq<int>, d: int)
    requires Digits(b, s) && 0 <= d < b
    ensures Digits(b, s + [d])
  {
  }

  lemma ValEmpty(b: int)
    ensures Val(b, []) == 0 && Pow(b, 0) == 1
  {
  }

  lemma ValSnoc(b: int, s: seq<int>, d: int)
    ensures Val(b, s + [d]) == Val(b, s) + d * Pow(b, |s|)
  {
    assert (s + [d])[..|s|] == s;
  }

  /** The value of one more digit of an array or sequence. */
  lemma ValNext(b: int, s: seq<int>, i: nat)
    requires i < |s|
    ensures Val(b, s[..i + 1]) == Val(b, s[..i]) + s[i] * Pow(b, i)
  {
    assert s[..i + 1] == s[..i] + [s[i]];
    ValSnoc(b, s[..i], s[i]);
  }

  lemma {:induction false} ValAppend(b: int, s: seq<int>, t: seq<int>)
    ensures Val(b, s + t) == Val(b, s) + Pow(b, |s|) * Val(b, t)
    decreases |t|
  {
    if t == [] {
      assert s + t == s;
    } else {
      var n := |t| - 1;
      var d := t[n];
      assert s + t == (s + t[..n]) + [d];
      ValSnoc(b, s + t[..n], d);
      ValAppend(b, s, t[..n]);
      PowAdd(b, |s|, n);
      assert d * (Pow(b, |s|) * Pow(b, n)) == Pow(b, |s|) * (d * Pow(b, n));
      MulDistributes(Val(b, t[..n]), d * Pow(b, n), Pow(b, |s|));
    }
  }

  lemma {:induction false} ValUpdate(b: int, s: seq<int>, k: nat, d: int)
    requires k < |s|
    ensures Val(b, s[k := d]) == Val(b, s) + (d - s[k]) * Pow(b, k)
    decreases |s|
  {
    var n := |s| - 1;
    var u := s[k := d];
    if k == n {
      assert u[..n] == s[..n];
      MulDistributes(d - s[k], s[k], Pow(b, k));
    } else {
      assert u[..n] == s[..n][k := d];
      ValUpdate(b, s[..n], k, d);
    }
  }

  lemma {:induction false} ValBound(b: int, s: seq<int>)
    requires 0 < b && Digits(b, s)
    ensures 0 <= Val(b, s) < Pow(b, |s|)
  {
    if s != [] {
      var n := |s| - 1;
      ValBound(b, s[..n]);
      MulMonotone(0, s[n], Pow(b, n));
      MulMonotone(s[n], b - 1, Pow(b, n));
      MulDistributes(b - 1, 1, Pow(b, n));
    }
  }

  lemma {:induction false} ValZero(b: int, s: seq<int>)
    requires forall i :: 0 <= i < |s| ==> s[i] == 0
    ensures Val(b, s) == 0
  {
    if s != [] {
      ValZero(b, s[..|s| - 1]);
    }
  }

  /** A digit string is determined by its length and its value. */
  lemma {:induction false} ValInjective(b: int, s: seq<int>, t: seq<int>)
    requires 0 < b && |s| == |t| && Digits(b, s) && Digits(b, t)
    requires Val(b, s) == Val(b, t)
    ensures s == t
  {
    if s != [] {
      var n := |s| - 1;
      ValBound(b, s[..n]);
      ValBound(b, t[..n]);
      DivModUnique(Val(b, s), Pow(b, n), s[n], Val(b, s[..n]));
      DivModUnique(Val(b, t), Pow(b, n), t[n], Val(b, t[..n]));
      ValInjective(b, s[..n], t[..n]);
      assert s == s[..n] + [s[n]];
      assert t == t[..n] + [t[n]];
    }
  }

  /** The `n` low base-`b` digits of `x`, least significant first. */
  function ToDigits(b: int, x: int, n: nat): (s: seq<int>)
    requires 0 < b
    ensures |s| == n && Digits(b, s)
    decreases n
  {
    if n == 0 then [] else [x % b] + ToDigits(b, x / b, n - 1)
  }

  lemma {:induction false} DigitAt(b: int, x: int, n: nat, i: nat)
    requires 0 < b && i < n && 0 <= x
    ensures 0 < Pow(b, i)
    ensures ToDigits(b, x, n)[i] == x / Pow(b, i) % b
    decreases n
  {
    PowPositive(b, i);
    if i > 0 {
      DigitAt(b, x / b, n - 1, i - 1);
      DivByProduct(x, b, Pow(b, i - 1));
    }
  }

  lemma DivByProduct(x: int, c: int, d: int)
    requires 0 <= x && 0 < c && 0 < d
    ensures 0 < c * d
    ensures x / c / d == x / (c * d)
  {
    MulPositive(c, d);
    var q, r := x / c, x % c;
    var k, s := q / d, q % d;
    assert x == q * c + r && q == k * d + s;
    assert x == k * (c * d) + (s * c + r) by {
      MulDistributes(k * d, s, c);
      assert (k * d) * c == k * (c * d);
    }
    MulMonotone(0, s, c);
    MulMonotone(s, d - 1, c);
    MulDistributes(d, -1, c);
    DivModUnique(x, c * d, k, s * c + r);
  }

  lemma ValCons(b: int, d: int, s: seq<int>)
    ensures Val(b, [d] + s) == d + b * Val(b, s)
  {
    ValAppend(b, [d], s);
    assert [d][..0] == [];
    assert Pow(b, 1) == b * Pow(b, 0);
  }

  lemma ValSplit(b: int, s: seq<int>, i: nat)
    requires i <= |s|
    ensures Val(b, s) == Val(b, s[..i]) + Pow(b, i) * Val(b, s[i..])
  {
    ValAppend(b, s[..i], s[i..]);
    assert s[..i] + s[i..] == s;
  }

  lemma ValHead(b: int, s: seq<int>)
    requires s != []
    ensures Val(b, s) == s[0] + b * Val(b, s[1..])
  {
    ValCons(b, s[0], s[1..]);
    assert [s[0]] + s[1..] == s;
  }

  lemma ValAt(b: int, s: seq<int>, i: nat)
    requires i < |s|
    ensures Val(b, s) == Val(b, s[..i]) + Pow(b, i) * (s[i] + b * Val(b, s[i + 1..]))
  {
    hide Val, Pow;
    var t := s[i..];
    ValSplit(b, s, i);
    ValHead(b, t);
    assert t[1..] == s[i + 1..];
  }

  lemma {:induction false} ValOfDigits(b: int, x: int, n: nat)
    requires 0 < b
    requires 0 <= x < Pow(b, n)
    ensures Val(b, ToDigits(b, x, n)) == x
    decreases n
  {
    if n > 0 {
      var q, r := x / b, x % b;
      assert x == b * q + r;
      assert q < Pow(b, n - 1) by {
        if q >= Pow(b, n - 1) {
          MulMonotone(Pow(b, n - 1), q, b);
        }
      }
      ValOfDigits(b, q, n - 1);
      ValCons(b, r, ToDigits(b, q, n - 1));
    }
  }

  /** One step of a carry chain: adding `x` at the next position and splitting the sum
      into digit and carry adds `x` with that position's weight. */
  lemma CarryStep(b: int, s: seq<int>, carry: int, x: int, total: int)
    requires 0 < b
    requires Val(b, s) + carry * Pow(b, |s|) == total
    ensures Val(b, s + [(carry + x) % b]) + (carry + x) / b * Pow(b, |s| + 1)
         == total + x * Pow(b, |s|)
  {
    hide Val, Pow;
    var c, w := carry + x, Pow(b, |s|);
    ValSnoc(b, s, c % b);
    PowNext(b, |s|);
    DivSplit(b, c, w);
    MulDistributes(carry, x, w);
  }

  lemma DivSplit(b: int, c: int, w: int)
    requires 0 < b
    ensures c * w == c % b * w + c / b * (b * w)
  {
    var digit, next := c % b, c / b;
    assert c == digit + b * next;
    MulDistributes(digit, b * next, w);
    MulAssociates(next, b, w);
  }

  // ---- Schoolbook multiplication ----

  /** v * y[j] at position i + j is the next term of v * b^i * y. */
  lemma RowWeight(b: int, y: seq<int>, i: nat, j: nat, v: int)
    requires j < |y|
    ensures v * Pow(b, i) * Val(b, y[..j]) + v * y[j] * Pow(b, i + j) == v * Pow(b, i) * Val(b, y[..j + 1])
  {
    hide Val, Pow;
    var w := v * Pow(b, i);
    ValNext(b, y, j);
    PowAdd(b, i, j);
    assert v * y[j] * (Pow(b, i) * Pow(b, j)) == w * (y[j] * Pow(b, j));
    MulDistributes(Val(b, y[..j]), y[j] * Pow(b, j), w);
  }

  lemma RowStep(b: int, t: seq<int>, y: seq<int>, i: nat, j: nat, v: int)
    requires i + j < |t| && j < |y|
    ensures Val(b, t[i + j := t[i + j] + v * y[j]]) - v * Pow(b, i) * Val(b, y[..j + 1])
         == Val(b, t) - v * Pow(b, i) * Val(b, y[..j])
  {
    hide Val, Pow;
    ValUpdate(b, t, i + j, t[i + j] + v * y[j]);
    RowWeight(b, y, i, j, v);
  }

  lemma RowDone(b: int, x: seq<int>, y: seq<int>, i: nat)
    requires i < |x|
    ensures Val(b, x[..i]) * Val(b, y) + x[i] * Pow(b, i) * Val(b, y) == Val(b, x[..i + 1]) * Val(b, y)
  {
    hide Val, Pow;
    ValNext(b, x, i);
    MulDistributes(Val(b, x[..i]), x[i] * Pow(b, i), Val(b, y));
  }
}
