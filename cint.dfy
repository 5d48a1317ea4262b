/** Machine integers of the generated C code.
    `int64_t` and `uint8_t` are newtypes over `int`, so every arithmetic
    operation on them is checked by Dafny for overflow: signed overflow is
    undefined behaviour in C and is excluded by preconditions.
    C's `/` on signed integers truncates toward zero (C11 6.5.5), unlike
    Dafny's Euclidean `/`, so it is defined here explicitly. */
module CInt {

  const Int64Min: int := -0x8000_0000_0000_0000
  const Int64Max: int := 0x7FFF_FFFF_FFFF_FFFF
  const Int32Min: int := -0x8000_0000
  const Int32Max: int := 0x7FFF_FFFF

  newtype Int64 = x: int | -0x8000_0000_0000_0000 <= x < 0x8000_0000_0000_0000
  newtype Int32 = x: int | -0x8000_0000 <= x < 0x8000_0000
  newtype UInt8 = x: int | 0 <= x < 256

  predicate InInt64(x: int) { Int64Min <= x <= Int64Max }

  function Abs(x: int): (r: nat)
    ensures r == x || r == -x
  {
    if x < 0 then -x else x
  }

  /** C's signed division: the quotient of |a| and |b| with the sign of a*b,
      i.e. rounded toward zero. */
  function TruncDiv(a: int, b: int): (q: int)
    requires b != 0
    ensures Abs(q) == Abs(a) / Abs(b)
    ensures q == 0 || (q < 0 <==> (a < 0) != (b < 0))
  {
    var x, y := Abs(a), Abs(b);
    var m: nat := x / y;
    if (a < 0) == (b < 0) then m as int else -(m as int)
  }

  /** C's `%`: what is left of a after taking off TruncDiv(a, b) copies of b. */
  function TruncRem(a: int, b: int): int
    requires b != 0
  {
    a - TruncDiv(a, b) * b
  }

  lemma DivBounds(x: nat, y: nat)
    requires y > 0
    ensures (x / y) * y <= x < (x / y) * y + y
  {
  }

  /** The C identity (a/b)*b + a%b == a, with the remainder smaller than the
      divisor and carrying the sign of the dividend. */
  lemma {:induction false} TruncDivRem(a: int, b: int)
    requires b != 0
    ensures TruncDiv(a, b) * b + TruncRem(a, b) == a
    ensures Abs(TruncRem(a, b)) < Abs(b)
    ensures TruncRem(a, b) == 0 || (TruncRem(a, b) < 0 <==> a < 0)
  {
    var q := TruncDiv(a, b);
    var m := Abs(a) / Abs(b);
    DivBounds(Abs(a), Abs(b));
    assert Abs(q * b) == m * Abs(b) by {
      if (a < 0) == (b < 0) {
        assert q == m;
      } else {
        assert q == -m;
      }
      AbsMul(q, b);
    }
  }

  lemma AbsMul(x: int, y: int)
    ensures Abs(x * y) == Abs(x) * Abs(y)
    ensures x * y >= 0 <==> (x == 0 || y == 0 || (x < 0) == (y < 0))
  {
    if x < 0 && y < 0 {
      assert x * y == (-x) * (-y);
    } else if x < 0 {
      assert x * y == -((-x) * y);
    } else if y < 0 {
      assert x * y == -(x * (-y));
    }
  }

  /** The quotient of two `int64_t` values is an `int64_t` except for the one
      overflowing case INT64_MIN / -1. */
  lemma {:induction false} TruncDivInRange(a: int, b: int)
    requires InInt64(a) && InInt64(b) && b != 0
    requires !(a == Int64Min && b == -1)
    ensures InInt64(TruncDiv(a, b))
  {
    var x, y := Abs(a), Abs(b);
    var q := TruncDiv(a, b);
    DivShrinks(x, y);
    if q >= 0 && a == Int64Min {
      assert b < 0 && y >= 2;
    }
  }

  /** x / y is at most x, and at most half of x once y >= 2. */
  lemma DivShrinks(x: nat, y: nat)
    requires y > 0
    ensures x / y <= x
    ensures y >= 2 ==> 2 * (x / y) <= x
  {
    var q := x / y;
    DivBounds(x, y);
    MulAtLeast(q, y);
    if y >= 2 {
      var e: nat := y - 2;
      assert q * y == 2 * q + q * e;
    }
  }

  lemma MulAtLeast(d: nat, k: int)
    ensures k >= 1 ==> d * k >= d
    ensures k <= -1 ==> d * k <= -(d as int)
  {
    if k >= 1 {
      var j: nat := k - 1;
      assert d * k == d * j + d;
    } else if k <= -1 {
      var j: nat := -k - 1;
      assert d * k == -(d * j) - d;
    }
  }

  /** Dividing by b and then by c truncates like dividing by b * c. */
  lemma {:induction false} TruncDivTwice(a: int, b: int, c: int)
    requires b != 0 && c != 0
    ensures TruncDiv(TruncDiv(a, b), c) == TruncDiv(a, b * c)
  {
    var q1 := TruncDiv(a, b);
    var q2 := TruncDiv(q1, c);
    AbsMul(b, c);
    NatDivTwice(Abs(a), Abs(b), Abs(c));
    assert Abs(q2) == Abs(a) / Abs(b * c);
    assert q2 != 0 ==> q1 != 0;
    assert (b * c < 0) <==> ((b < 0) != (c < 0));
    TruncDivUnique(a, b * c, q2);
  }

  /** TruncDiv(a, b) is the only q with |q| == |a| / |b| carrying the sign of a * b. */
  lemma TruncDivUnique(a: int, b: int, q: int)
    requires b != 0
    requires Abs(q) == Abs(a) / Abs(b)
    requires q == 0 || (q < 0 <==> (a < 0) != (b < 0))
    ensures q == TruncDiv(a, b)
  {
  }

  lemma {:induction false} NatDivTwice(x: nat, y: nat, z: nat)
    requires y > 0 && z > 0
    ensures (x / y) / z == x / (y * z)
  {
    var q, r := x / y, x % y;
    var q2, r2 := q / z, q % z;
    assert x == y * q + r;
    assert q == z * q2 + r2;
    assert y * q == y * (z * q2) + y * r2;
    assert y * (z * q2) == (y * z) * q2;
    assert r2 <= z - 1;
    var zm: nat := z - 1 - r2;
    assert y * (z - 1) == y * r2 + y * zm;
    assert y * (z - 1) == y * z - y;
    assert y * r2 >= 0;
    DivUnique(x, y * z, q2, y * r2 + r);
  }

  /** The Euclidean quotient is the only q with x == d * q + r, 0 <= r < d. */
  lemma DivUnique(x: nat, d: nat, q: int, r: int)
    requires d > 0 && x == d * q + r && 0 <= r < d
    ensures x / d == q
  {
    var q', r' := x / d, x % d;
    assert x == d * q' + r';
    var k := q - q';
    assert d * k == d * q - d * q';
    MulAtLeast(d, k);
  }

  /** The value of a 64-bit two's complement bit pattern as `int64_t`. */
  function FromBits(v: bv64): (r: Int64)
    ensures r < 0 <==> v >= 0x8000_0000_0000_0000
    ensures r == 0 <==> v == 0
  {
    if v < 0x8000_0000_0000_0000 then
      ((v as bv63) as int) as Int64
    else
      (((v - 0x8000_0000_0000_0000) as bv63) as int - 0x8000_0000_0000_0000) as Int64
  }

  /** The value a conversion to a signed 32-bit `int` leaves, as GCC defines
      the implementation-defined case (reduction modulo 2^32). */
  function Wrap32(x: int): (r: Int32)
    ensures (x - r as int) % 0x1_0000_0000 == 0
    ensures Int32Min <= x <= Int32Max ==> r as int == x
  {
    var m := x % 0x1_0000_0000;
    if m <= Int32Max then m as Int32 else (m - 0x1_0000_0000) as Int32
  }

  /** Reducing before adding gives the same 32-bit value as reducing after. */
  lemma Wrap32Add(x: int, y: int)
    ensures Wrap32(Wrap32(x) as int + y) == Wrap32(x + y)
  {
    var w := Wrap32(x) as int;
    assert (w + y) - (x + y) == w - x;
    Wrap32Congruent(w + y, x + y);
  }

  lemma Wrap32Congruent(x: int, y: int)
    requires (x - y) % 0x1_0000_0000 == 0
    ensures Wrap32(x) == Wrap32(y)
  {
    var k := (x - y) / 0x1_0000_0000;
    assert x == y + k * 0x1_0000_0000;
    ModShift(y, k);
  }

  lemma {:induction false} ModShift(y: int, k: int)
    ensures (y + k * 0x1_0000_0000) % 0x1_0000_0000 == y % 0x1_0000_0000
  {
  }
}
