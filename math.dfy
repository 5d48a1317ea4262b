/** The `math` example module: division by a `Positive` denominator and the
    identity on `Positive`. `Positive` is an `int64_t` of at least 1; the
    type is what keeps zero away from the division, no check in the body. */
module Math {
  import opened CInt

  type Positive = x: Int64 | x >= 1 witness 1

  /** `math_divide`: C's truncating quotient. It is never larger in size
      than the numerator and never has the opposite sign. */
  function Divide(numerator: Int64, denominator: Positive): (r: Int64)
    ensures r as int == TruncDiv(numerator as int, denominator as int)
    ensures Abs(r as int) <= Abs(numerator as int)
    ensures r == 0 || (r < 0 <==> numerator < 0)
  {
    TruncDivInRange(numerator as int, denominator as int);
    DivShrinks(Abs(numerator as int), denominator as int);
    TruncDiv(numerator as int, denominator as int) as Int64
  }

  /** The quotient rounds toward zero: r * d is within d of the numerator
      and on the same side of zero. */
  lemma DivideRoundsTowardZero(numerator: Int64, denominator: Positive)
    ensures var r := Divide(numerator, denominator) as int;
      Abs(r * denominator as int) <= Abs(numerator as int) < Abs(r * denominator as int) + denominator as int
  {
    var n, d := numerator as int, denominator as int;
    TruncDivRem(n, d);
    var q := TruncDiv(n, d);
    AbsMul(q, d);
  }

  /** `math_abs_positive`: the argument itself, so still `Positive`. */
  function AbsPositive(x: Positive): (r: Positive)
    ensures r == x
  {
    x
  }
}
