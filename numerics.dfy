/** Exact-arithmetic stand-ins for the few numeric primitives the simulator uses:
    Python's `round` (round half to even) on a rational, Python's float `%` on a
    positive modulus, and numpy's `linspace` positions. Floating-point error is
    not modelled: every quantity is an exact `int` or `real`. */
module Numerics {

  /** numpy's `np.pi`, written out to the digits Python prints for it. */
  const PI: real := 3.141592653589793
  const TWO_PI: real := 2.0 * PI

  /** Python's `round(num / den)` for an exact rational: the nearest integer,
      and on a tie (a fraction of exactly one half) the even neighbour. */
  function RoundHalfEven(num: int, den: int): (r: int)
    requires den > 0
    ensures den * (2 * r - 1) <= 2 * num <= den * (2 * r + 1)
    ensures 2 * num == den * (2 * r - 1) || 2 * num == den * (2 * r + 1) ==> r % 2 == 0
  {
    var q, m := num / den, num % den;
    assert num == den * q + m;
    assert 2 * num == den * (2 * q) + 2 * m;
    assert den * (2 * q - 1) == den * (2 * q) - den;
    assert den * (2 * q + 1) == den * (2 * q) + den;
    assert den * (2 * q + 3) == den * (2 * q) + 3 * den;
    if 2 * m < den then q
    else if 2 * m > den then q + 1
    else if q % 2 == 0 then q
    else q + 1
  }

  /** The two contract clauses of RoundHalfEven pin the result down: any
      integer within one half of `num / den` that is even on a tie is it. */
  lemma {:induction false} RoundHalfEvenUnique(num: int, den: int, r: int)
    requires den > 0
    requires den * (2 * r - 1) <= 2 * num <= den * (2 * r + 1)
    requires 2 * num == den * (2 * r - 1) || 2 * num == den * (2 * r + 1) ==> r % 2 == 0
    ensures r == RoundHalfEven(num, den)
  {
    var s := RoundHalfEven(num, den);
    if r < s {
      ScaleLe(den, 2 * s - 1, 2 * r + 1);
    } else if r > s {
      ScaleLe(den, 2 * r - 1, 2 * s + 1);
    }
  }

  /** Rounding is monotone: a larger numerator never rounds lower. */
  lemma {:induction false} RoundHalfEvenMonotone(a: int, b: int, den: int)
    requires den > 0 && a <= b
    ensures RoundHalfEven(a, den) <= RoundHalfEven(b, den)
  {
    var ra, rb := RoundHalfEven(a, den), RoundHalfEven(b, den);
    if ra > rb {
      ScaleLe(den, 2 * ra - 1, 2 * rb + 1);
      assert false;
    }
  }

  /** Dividing out a positive factor from an inequality between products. */
  lemma ScaleLe(den: int, x: int, y: int)
    requires den > 0 && den * x <= den * y
    ensures x <= y
  {
  }

  /** Python's `a % b` on floats for a positive modulus `b`: the result has the
      sign of `b`, that is, it lies in [0, b). Its value is fixed here for `a`
      in [0, 2b), the only range the sun's phase reaches. */
  function FloorMod(a: real, b: real): (r: real)
    requires b > 0.0
    ensures 0.0 <= r < b
    ensures 0.0 <= a < b ==> r == a
    ensures b <= a < 2.0 * b ==> r == a - b
  {
    if 0.0 <= a < b then a
    else if b <= a < 2.0 * b then a - b
    else
      var n := (a / b).Floor;
      FloorBounds(a, b, n);
      a - (n as real) * b
  }

  /** The quotient `n` that FloorMod removes is the floor of `a / b`. */
  lemma FloorBounds(a: real, b: real, n: int)
    requires b > 0.0 && n == (a / b).Floor
    ensures (n as real) * b <= a < (n as real) * b + b
  {
    FloorLower(a, b, n);
    FloorUpper(a, b, n);
  }

  lemma DivMul(a: real, b: real)
    requires b > 0.0
    ensures (a / b) * b == a
  {
  }

  lemma FloorLower(a: real, b: real, n: int)
    requires b > 0.0 && n == (a / b).Floor
    ensures (n as real) * b <= a
  {
    var q := a / b;
    DivMul(a, b);
    MulLe(n as real, q, b);
  }

  lemma FloorUpper(a: real, b: real, n: int)
    requires b > 0.0 && n == (a / b).Floor
    ensures a < (n as real) * b + b
  {
    var q, hi := a / b, (n as real) + 1.0;
    DivMul(a, b);
    MulLt(q, hi, b);
    assert hi * b == (n as real) * b + b;
  }

  lemma MulLe(x: real, y: real, b: real)
    requires b > 0.0
    ensures x <= y <==> x * b <= y * b
  {
    assert y * b - x * b == (y - x) * b;
  }

  lemma MulLt(x: real, y: real, b: real)
    requires b > 0.0
    ensures x < y <==> x * b < y * b
  {
    assert y * b - x * b == (y - x) * b;
  }

  /** Position `i` of numpy's `linspace(0, 2 * pi, n)`: `n` evenly spaced
      angles from 0 to 2 * pi inclusive, and the single angle 0 when n == 1. */
  function Linspace(n: nat, i: nat): (theta: real)
    requires 1 <= n && i < n
    ensures 0.0 <= theta <= TWO_PI
    ensures theta == 0.0 <==> i == 0
    ensures n > 1 && i == n - 1 ==> theta == TWO_PI
  {
    if n == 1 then 0.0
    else
      var f := (i as real) / ((n - 1) as real);
      DivMul(i as real, (n - 1) as real);
      Fraction(i as real, (n - 1) as real, f);
      TWO_PI * f
  }

  /** A quotient `f` of `x` by `m` with 0 <= x <= m lies in [0, 1], is 0 only
      for x == 0 and is 1 for x == m. */
  lemma Fraction(x: real, m: real, f: real)
    requires m > 0.0 && 0.0 <= x <= m && f * m == x
    ensures 0.0 <= f <= 1.0
    ensures f == 0.0 <==> x == 0.0
    ensures x == m ==> f == 1.0
  {
    assert f * m <= 1.0 * m;
    MulLe(f, 1.0, m);
    assert 0.0 * m <= f * m;
    MulLe(0.0, f, m);
    MulLe(1.0, f, m);
  }
}
