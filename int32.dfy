/**
  The C# `int` type (System.Int32) and the two arithmetic facts the
  math plugin depends on: in an unchecked context `+`, `-` and `*` keep
  the low 32 bits of the exact result, read back in two's complement,
  and `/` rounds the exact quotient toward zero (section 12.10.3 of
  ECMA-334), whereas Dafny's own `/` is Euclidean.
 */
module Int32 {

  const MIN: int := -0x8000_0000
  const MAX: int := 0x7FFF_FFFF
  /** 2^32, the modulus of two's-complement wrap-around. */
  const MODULUS: int := 0x1_0000_0000

  predicate InRange(x: int) {
    MIN <= x <= MAX
  }

  /** The values of a C# `int`. */
  type int32 = x: int | InRange(x)

  function Abs(x: int): nat {
    if x < 0 then -x else x
  }

  /** x and y leave the same remainder modulo 2^32, i.e. have the same low 32 bits. */
  predicate Congruent(x: int, y: int) {
    (x - y) % MODULUS == 0
  }

  /** The int32 whose two's-complement bit pattern is the low 32 bits of x. */
  function Wrap(x: int): (r: int32)
    ensures Congruent(r, x)
    ensures InRange(x) ==> r == x
    ensures MAX < x <= MAX + MODULUS ==> r == x - MODULUS
    ensures MIN - MODULUS <= x < MIN ==> r == x + MODULUS
  {
    (x - MIN) % MODULUS + MIN
  }

  lemma MultipleOfModulusInRange(d: int)
    requires d % MODULUS == 0
    requires -MODULUS < d < MODULUS
    ensures d == 0
  {
  }

  /** Two int32 values with the same low 32 bits are equal. */
  lemma CongruentInt32Equal(x: int32, y: int32)
    requires Congruent(x, y)
    ensures x == y
  {
    assert InRange(x) && InRange(y);
    MultipleOfModulusInRange(x - y);
  }

  /** Wrap is the only int32 congruent to its argument. */
  lemma WrapUnique(x: int, y: int32)
    requires Congruent(y, x)
    ensures y == Wrap(x)
  {
    CongruentTrans(y, x, Wrap(x));
    CongruentInt32Equal(y, Wrap(x));
  }

  lemma CongruentSymm(x: int, y: int)
    requires Congruent(x, y)
    ensures Congruent(y, x)
  {
  }

  lemma CongruentTrans(x: int, y: int, z: int)
    requires Congruent(x, y)
    requires Congruent(z, y)
    ensures Congruent(x, z)
  {
  }

  lemma CongruentAdd(x: int, x': int, y: int, y': int)
    requires Congruent(x, x') && Congruent(y, y')
    ensures Congruent(x + y, x' + y')
  {
  }

  lemma CongruentSub(x: int, x': int, y: int, y': int)
    requires Congruent(x, x') && Congruent(y, y')
    ensures Congruent(x - y, x' - y')
  {
  }

  lemma CongruentMul(x: int, x': int, y: int, y': int)
    requires Congruent(x, x') && Congruent(y, y')
    ensures Congruent(x * y, x' * y')
  {
    var k1 := (x - x') / MODULUS;
    var k2 := (y - y') / MODULUS;
    assert x == x' + MODULUS * k1;
    assert y == y' + MODULUS * k2;
    calc {
      x * y - x' * y';
      (x' + MODULUS * k1) * (y' + MODULUS * k2) - x' * y';
      MODULUS * (k1 * y' + x' * k2 + MODULUS * k1 * k2);
    }
  }

  /** a * (b + c) and a * b + a * c agree modulo 2^32 even when each
      product and sum was reduced modulo 2^32 on the way. */
  lemma CongruentDistributes(a: int, b: int, c: int, s: int, l: int, m1: int, m2: int, r: int)
    requires Congruent(s, b + c) && Congruent(l, a * s)
    requires Congruent(m1, a * b) && Congruent(m2, a * c) && Congruent(r, m1 + m2)
    ensures Congruent(l, r)
  {
    CongruentMul(a, a, s, b + c);
    CongruentTrans(l, a * s, a * (b + c));
    CongruentAdd(m1, a * b, m2, a * c);
    CongruentTrans(r, m1 + m2, a * b + a * c);
    assert a * (b + c) == a * b + a * c;
    CongruentSymm(r, a * (b + c));
    CongruentTrans(l, a * (b + c), r);
  }

  /** q is the exact quotient a / b rounded toward zero: the remainder
      a - q * b is smaller than b in magnitude and is zero or has the
      sign of a (section 12.10.3 of ECMA-334). */
  predicate IsTruncatedQuotient(a: int, b: int, q: int) {
    var rem := a - q * b;
    b != 0 && Abs(rem) < Abs(b) && (rem == 0 || (rem < 0 <==> a < 0))
  }

  /** Division rounding toward zero, on unbounded integers. */
  function TruncDiv(a: int, b: int): (q: int)
    requires b != 0
    ensures IsTruncatedQuotient(a, b, q)
    ensures Abs(q) <= Abs(a)
  {
    var n := Abs(a) / Abs(b);
    var q := if (a < 0) == (b < 0) then n else -n;
    TruncDivMagnitude(a, b, n, q);
    q
  }

  lemma MulAtLeast(n: nat, y: int)
    requires y >= 1
    ensures n * y >= n
  {
  }

  lemma DivModNat(x: nat, y: nat)
    requires y > 0
    ensures x == (x / y) * y + x % y && 0 <= x % y < y && 0 <= x / y <= x
  {
    var n: int, m: int := x / y, x % y;
    assert x == y * n + m && 0 <= m < y;
    MulAtLeast(n, y);
  }

  lemma TruncDivMagnitude(a: int, b: int, n: int, q: int)
    requires b != 0 && n == Abs(a) / Abs(b)
    requires q == if (a < 0) == (b < 0) then n else -n
    ensures IsTruncatedQuotient(a, b, q) && Abs(q) <= Abs(a)
  {
    var x: int, y: int := Abs(a), Abs(b);
    var m: int := x % y;
    var p := n * y;
    assert x == p + m && 0 <= m < y && 0 <= n <= x by {
      DivModNat(x, y);
    }
    assert q * b == if a < 0 then -p else p by {
      NegMul(n, y);
    }
  }

  lemma NegMul(x: int, y: int)
    ensures (-x) * (-y) == x * y && (-x) * y == -(x * y) && x * (-y) == -(x * y)
  {
  }

  lemma MulMagnitude(k: int, b: int)
    requires k != 0
    ensures Abs(k * b) >= Abs(b)
  {
  }

  lemma MulSub(x: int, y: int, z: int)
    ensures (x - y) * z == x * z - y * z
  {
  }

  /** Two remainders below |b| on the same side of zero differ by less than |b|. */
  lemma RemaindersClose(a: int, b: int, r: int, r': int)
    requires Abs(r) < Abs(b) && (r == 0 || (r < 0 <==> a < 0))
    requires Abs(r') < Abs(b) && (r' == 0 || (r' < 0 <==> a < 0))
    ensures Abs(r - r') < Abs(b)
  {
  }

  /** The truncated quotient is unique, so TruncDiv is the quotient
      that section 12.10.3 of ECMA-334 prescribes. */
  lemma TruncatedQuotientUnique(a: int, b: int, q: int)
    requires IsTruncatedQuotient(a, b, q)
    ensures q == TruncDiv(a, b)
  {
    var q' := TruncDiv(a, b);
    var p, p' := q * b, q' * b;
    RemaindersClose(a, b, a - p, a - p');
    MulSub(q', q, b);
    if q' != q {
      MulMagnitude(q' - q, b);
    }
  }

  lemma HalfBound(x: nat, y: nat)
    requires y >= 2
    ensures 2 * (x / y) <= x
  {
    DivModNat(x, y);
    var n := x / y;
    MulAtLeast(n, y - 1);
    assert n * y == n * (y - 1) + n;
  }

  /** The only int32 division whose quotient is not an int32 is MIN / -1. */
  lemma TruncDivOverflow(a: int32, b: int32)
    requires b != 0
    ensures !InRange(TruncDiv(a, b)) <==> (a == MIN && b == -1)
  {
    assert InRange(a) && InRange(b);
    var x: nat, y: nat := Abs(a), Abs(b);
    var q := TruncDiv(a, b);
    assert q == if (a < 0) == (b < 0) then x / y else -(x / y);
    if y >= 2 {
      HalfBound(x, y);
    } else {
      assert y == 1 && x / y == x;
    }
  }
}
