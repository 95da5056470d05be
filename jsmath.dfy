/**
 * The few pieces of JavaScript number semantics the application relies on:
 * `Math.random()` draws, `Math.floor(Math.random() * n)`, `Math.trunc(a / b)`
 * and numbers that may be NaN or infinite.
 */
module JsMath {

  /** A value returned by `Math.random()`: a number in [0, 1). */
  type Unit = r: real | 0.0 <= r < 1.0

  /** `Math.floor(r * n)` for a draw `r`: always one of 0 .. n-1 (or 0 when n is 0). */
  function FloorTimes(r: Unit, n: nat): (k: int)
    ensures n > 0 ==> 0 <= k < n
    ensures n == 0 ==> k == 0
    ensures k as real <= r * n as real < k as real + 1.0
  {
    var x := r * n as real;
    assert x < n as real || n == 0 by {
      if n > 0 {
        assert r * n as real < 1.0 * n as real;
      }
    }
    x.Floor
  }

  /** Every value 0 .. n-1 is `Math.floor(r * n)` for some draw `r`. */
  lemma FloorTimesOnto(n: nat, k: int)
    requires 0 <= k < n
    ensures exists r: Unit :: FloorTimes(r, n) == k
  {
    var r: real := k as real / n as real;
    assert r * n as real == k as real;
    assert 0.0 <= r < 1.0;
    assert FloorTimes(r, n) == k;
  }

  /** A JavaScript number as far as the application distinguishes them. */
  datatype Num = Finite(value: int) | PosInfinity | NegInfinity | NaN

  /** JavaScript `+` on numbers: NaN absorbs everything. */
  function Add(a: Num, b: Num): (c: Num)
    ensures a.Finite? && b.Finite? ==> c == Finite(a.value + b.value)
    ensures a.NaN? || b.NaN? ==> c.NaN?
  {
    match (a, b)
    case (Finite(x), Finite(y)) => Finite(x + y)
    case (NaN, _) => NaN
    case (_, NaN) => NaN
    case (PosInfinity, NegInfinity) => NaN
    case (NegInfinity, PosInfinity) => NaN
    case (PosInfinity, _) => PosInfinity
    case (_, PosInfinity) => PosInfinity
    case (NegInfinity, _) => NegInfinity
    case (_, NegInfinity) => NegInfinity
  }

  /** Integer division rounding toward zero, as `Math.trunc(a / b)` gives for b != 0. */
  function TruncDiv(a: int, b: int): (q: int)
    requires b != 0
    ensures Abs(q) == Abs(a) / Abs(b)
    ensures q > 0 ==> (a > 0) == (b > 0)
    ensures q < 0 ==> (a > 0) != (b > 0)
  {
    var d := Abs(a) / Abs(b);
    assert a == 0 ==> d == 0;
    if (a < 0) == (b < 0) then d else -d
  }

  function Abs(x: int): nat { if x < 0 then -x else x }

  /** `a % b` on whole numbers: the remainder takes the sign of the dividend. */
  function TruncRem(a: int, b: int): (r: int)
    requires b != 0
    ensures Abs(r) == Abs(a) % Abs(b)
    ensures a >= 0 ==> r >= 0
    ensures a < 0 ==> r <= 0
  {
    if a >= 0 then a % Abs(b) else -((-a) % Abs(b))
  }

  /** `Math.trunc(n1 / n2)` on whole numbers, including division by zero. */
  function TruncQuotient(n1: int, n2: int): (r: Num)
    ensures n2 != 0 ==> r == Finite(TruncDiv(n1, n2))
    ensures n2 == 0 ==> (r.NaN? <==> n1 == 0) && (r.PosInfinity? <==> n1 > 0) && (r.NegInfinity? <==> n1 < 0)
  {
    if n2 != 0 then Finite(TruncDiv(n1, n2))
    else if n1 > 0 then PosInfinity
    else if n1 < 0 then NegInfinity
    else NaN
  }

  /** An exact quotient survives truncation unchanged. */
  lemma TruncDivExact(k: int, n2: int)
    requires n2 != 0
    ensures TruncDiv(k * n2, n2) == k
  {
    var d := Abs(n2);
    AbsMul(k, n2);
    DivUnique(Abs(k) * d, d, Abs(k), 0);
    if k > 0 {
      assert (k * n2 > 0) == (n2 > 0) by { SignOfProduct(k, n2); }
    } else if k < 0 {
      assert (k * n2 > 0) != (n2 > 0) by { SignOfProduct(k, n2); }
    }
  }

  lemma AbsMul(x: int, y: int)
    ensures Abs(x * y) == Abs(x) * Abs(y)
  {
    if x < 0 && y < 0 {
      assert x * y == (-x) * (-y);
    } else if x < 0 {
      assert -(x * y) == (-x) * y;
    } else if y < 0 {
      assert -(x * y) == x * (-y);
    }
  }

  lemma SignOfProduct(x: int, y: int)
    requires x != 0 && y != 0
    ensures (x * y > 0) == ((x > 0) == (y > 0))
  {
    if x > 0 && y > 0 {
    } else if x < 0 && y < 0 {
      assert x * y == (-x) * (-y);
    } else if x < 0 {
      assert x * y == -((-x) * y);
    } else {
      assert x * y == -(x * (-y));
    }
  }

  /** Euclidean division is determined by quotient and remainder. */
  lemma DivUnique(m: int, d: int, q: int, r: int)
    requires d > 0 && m == q * d + r && 0 <= r < d
    ensures m / d == q && m % d == r
  {
    var q', r' := m / d, m % d;
    assert m == q' * d + r' && 0 <= r' < d;
    var t := q - q';
    assert t * d == r' - r by { assert q * d - q' * d == (q - q') * d; }
    if t >= 1 {
      MulAtLeast(t, d);
    } else if t <= -1 {
      MulAtLeast(-t, d);
    }
  }

  lemma MulAtLeast(t: int, d: int)
    requires t >= 1 && d > 0
    ensures t * d >= d
  {
    assert t * d == (t - 1) * d + d;
    assert (t - 1) * d >= 0;
  }
}
