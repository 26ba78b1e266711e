/**
  The four kernel functions of MyMathPlugin. Each takes two C# `int`s and
  returns one, computed by a single C# operator in the default unchecked
  context: `+`, `-` and `*` wrap around modulo 2^32, and `/` truncates
  toward zero and throws on a zero divisor and on `int.MinValue / -1`.
  The functions keep no state, so each is a Dafny function.
 */
module MyMathPlugin {
  import opened Int32
  import opened Wrappers

  /** The exceptions `/` on `int` throws in .NET. */
  datatype ArithError =
    | DivideByZero  // System.DivideByZeroException
    | Overflow      // System.OverflowException (int.MinValue / -1)

  /** `number1 + number2`: the exact sum when it fits, otherwise the sum
      shifted by 2^32 back into range. */
  function Add(number1: int32, number2: int32): (r: int32)
    ensures Congruent(r, number1 + number2)
    ensures InRange(number1 + number2) ==> r == number1 + number2
    ensures number1 + number2 > MAX ==> r == number1 + number2 - MODULUS
    ensures number1 + number2 < MIN ==> r == number1 + number2 + MODULUS
  {
    assert InRange(number1) && InRange(number2);
    Wrap(number1 + number2)
  }

  /** `number1 - number2`, wrapping like Add. */
  function Subtract(number1: int32, number2: int32): (r: int32)
    ensures Congruent(r, number1 - number2)
    ensures InRange(number1 - number2) ==> r == number1 - number2
    ensures number1 - number2 > MAX ==> r == number1 - number2 - MODULUS
    ensures number1 - number2 < MIN ==> r == number1 - number2 + MODULUS
  {
    assert InRange(number1) && InRange(number2);
    Wrap(number1 - number2)
  }

  /** `number1 * number2`: the low 32 bits of the exact product. */
  function Multiply(number1: int32, number2: int32): (r: int32)
    ensures Congruent(r, number1 * number2)
    ensures InRange(number1 * number2) ==> r == number1 * number2
  {
    Wrap(number1 * number2)
  }

  /** `number1 / number2`: the quotient rounded toward zero, or the
      exception .NET throws. */
  function Divide(number1: int32, number2: int32): (r: Result<int32, ArithError>)
    ensures r.Failure? <==> number2 == 0 || (number1 == MIN && number2 == -1)
    ensures number2 == 0 ==> r == Failure(DivideByZero)
    ensures number1 == MIN && number2 == -1 ==> r == Failure(Overflow)
    ensures r.Success? ==> IsTruncatedQuotient(number1, number2, r.value)
  {
    if number2 == 0 then
      Failure(DivideByZero)
    else if number1 == MIN && number2 == -1 then
      Failure(Overflow)
    else
      TruncDivOverflow(number1, number2);
      Success(TruncDiv(number1, number2))
  }

  /** Subtracting and then adding back the same number restores the
      original, overflow or not. */
  lemma AddSubtractInverse(a: int32, b: int32)
    ensures Add(Subtract(a, b), b) == a
    ensures Subtract(Add(a, b), b) == a
  {
    var d := Subtract(a, b);
    CongruentAdd(d, a - b, b, b);
    CongruentTrans(Add(d, b), d + b, a);
    CongruentInt32Equal(Add(d, b), a);
    var s := Add(a, b);
    CongruentSub(s, a + b, b, b);
    CongruentTrans(Subtract(s, b), s - b, a);
    CongruentInt32Equal(Subtract(s, b), a);
  }

  lemma AddCommutative(a: int32, b: int32)
    ensures Add(a, b) == Add(b, a)
  {
  }

  lemma MultiplyCommutative(a: int32, b: int32)
    ensures Multiply(a, b) == Multiply(b, a)
  {
  }

  /** Wrap-around addition is associative: the order in which an
      overflowing sum is computed does not change its value. */
  lemma AddAssociative(a: int32, b: int32, c: int32)
    ensures Add(Add(a, b), c) == Add(a, Add(b, c))
  {
  }

  /** Multiply distributes over Add, overflow or not. */
  lemma MultiplyDistributesOverAdd(a: int32, b: int32, c: int32)
    ensures Multiply(a, Add(b, c)) == Add(Multiply(a, b), Multiply(a, c))
  {
    var s, m1, m2 := Add(b, c), Multiply(a, b), Multiply(a, c);
    var l, r := Multiply(a, s), Add(m1, m2);
    CongruentDistributes(a, b, c, s, l, m1, m2, r);
    CongruentInt32Equal(l, r);
  }

  /** Divide returns exactly the truncated quotient whenever it succeeds,
      and succeeds for every nonzero divisor except in int.MinValue / -1. */
  lemma DivideIsTruncDiv(a: int32, b: int32)
    requires b != 0
    ensures Divide(a, b).Success? ==> Divide(a, b).value == TruncDiv(a, b)
    ensures Divide(a, b).Failure? ==> !InRange(TruncDiv(a, b))
  {
  }
}
