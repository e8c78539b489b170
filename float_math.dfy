/** Single-precision arithmetic as the track code uses it, over exact reals.
    The only operation whose float semantics matters here is C#'s `%`, which on
    floats is C's truncating `fmod`: the remainder of a division truncated toward zero,
    carrying the sign of the dividend, and NaN when the divisor is zero. */
module FloatMath {

  /** A float as the model sees it: an exact real value, or NaN. */
  datatype Float = Finite(value: real) | NaN {

    /** IEEE `<`: every comparison with NaN is false. */
    predicate LessThan(bound: real) {
      Finite? && value < bound
    }
  }

  function Abs(x: real): real {
    if x < 0.0 then -x else x
  }

  /** The integer part of `q`, rounded toward zero. */
  function Trunc(q: real): (n: int)
    ensures q >= 0.0 ==> 0 <= n && n as real <= q < n as real + 1.0
    ensures q < 0.0 ==> n <= 0 && n as real - 1.0 < q <= n as real
  {
    if q >= 0.0 then q.Floor else -((-q).Floor)
  }

  /** `n` copies of `m`; a named term so that quantifiers over `n` have a trigger. */
  function Times(n: int, m: real): real {
    n as real * m
  }

  /** `x` is a whole multiple of `m`. */
  ghost predicate IsMultiple(x: real, m: real) {
    exists n: int :: x == Times(n, m)
  }

  /** C#'s `x % m` on floats. */
  function Rem(x: real, m: real): (r: Float)
    ensures r.NaN? <==> m == 0.0
  {
    if m == 0.0 then NaN else Finite(x - Times(Trunc(x / m), m))
  }

  /** A fraction strictly between -1 and 1 of `m` is smaller than `m` in size, and has the sign the factors give it. */
  lemma FractionOf(f: real, m: real)
    requires -1.0 < f < 1.0 && m != 0.0
    ensures Abs(f * m) < Abs(m)
    ensures f >= 0.0 && m > 0.0 ==> f * m >= 0.0
    ensures f >= 0.0 && m < 0.0 ==> f * m <= 0.0
    ensures f <= 0.0 && m > 0.0 ==> f * m <= 0.0
    ensures f <= 0.0 && m < 0.0 ==> f * m >= 0.0
  {
    if f >= 0.0 && m > 0.0 {
      assert f * m < 1.0 * m;
    } else if f >= 0.0 {
      assert f * (-m) < 1.0 * (-m);
    } else if m > 0.0 {
      assert (-f) * m < 1.0 * m;
    } else {
      assert (-f) * (-m) < 1.0 * (-m);
    }
  }

  /** The remainder differs from the dividend by a whole multiple of the divisor,
      is smaller than the divisor in size, and has the sign of the dividend:
      in [0, |m|) for a dividend >= 0 and in (-|m|, 0] for a negative one. */
  lemma RemBounds(x: real, m: real)
    requires m != 0.0
    ensures Rem(x, m).Finite?
    ensures IsMultiple(x - Rem(x, m).value, m)
    ensures Abs(Rem(x, m).value) < Abs(m)
    ensures x >= 0.0 ==> 0.0 <= Rem(x, m).value
    ensures x < 0.0 ==> Rem(x, m).value <= 0.0
  {
    var q := x / m;
    var t := Trunc(q);
    var f := q - t as real;
    var r := Rem(x, m).value;
    assert x == q * m;
    assert r == f * m by {
      calc {
        r;
        x - t as real * m;
        q * m - t as real * m;
        (q - t as real) * m;
      }
    }
    assert x - r == Times(t, m);
    FractionOf(f, m);
    if x >= 0.0 {
      if m > 0.0 {
        assert q >= 0.0;
      } else {
        assert q <= 0.0;
      }
    } else {
      if m > 0.0 {
        assert q < 0.0;
      } else {
        assert q > 0.0;
      }
    }
  }

  /** A product with a positive factor is positive only if the other factor is. */
  lemma PositiveFactor(a: real, b: real)
    requires b > 0.0
    ensures a * b > 0.0 ==> a > 0.0
  {
    if a <= 0.0 {
      assert (-a) * b >= 0.0;
    }
  }

  /** Dividing by something larger in size gives a quotient strictly between -1 and 1. */
  lemma SmallQuotient(x: real, m: real)
    requires m != 0.0 && Abs(x) < Abs(m)
    ensures -1.0 < x / m < 1.0
  {
    var q := x / m;
    var n := Abs(m);
    assert x == q * m;
    assert n - x > 0.0 && n + x > 0.0;
    if m > 0.0 {
      assert (1.0 - q) * n == n - x;
      assert (q + 1.0) * n == n + x;
    } else {
      assert n == -m;
      assert (1.0 - q) * n == n + x;
      assert (q + 1.0) * n == n - x;
    }
    PositiveFactor(1.0 - q, n);
    PositiveFactor(q + 1.0, n);
    assert 1.0 - q > 0.0 by {
      assert m > 0.0 ==> (1.0 - q) * n == n - x;
      assert m < 0.0 ==> (1.0 - q) * n == n + x;
    }
  }

  /** A dividend already smaller than the divisor in size is its own remainder. */
  lemma RemOfSmall(x: real, m: real)
    requires m != 0.0 && Abs(x) < Abs(m)
    ensures Rem(x, m) == Finite(x)
  {
    SmallQuotient(x, m);
    assert Trunc(x / m) == 0;
  }

  /** Wrapping twice wraps once. */
  lemma {:induction false} RemIdempotent(x: real, m: real)
    requires m != 0.0
    ensures Rem(Rem(x, m).value, m) == Rem(x, m)
  {
    RemBounds(x, m);
    RemOfSmall(Rem(x, m).value, m);
  }

  /** A quotient of a non-negative dividend by a positive divisor is not negative. */
  lemma NonnegativeQuotient(x: real, m: real)
    requires x >= 0.0 && m > 0.0
    ensures x / m >= 0.0
  {
  }

  /** For a non-negative dividend and a positive divisor the remainder is the one
      value in [0, m) that differs from the dividend by a whole multiple of m. */
  lemma RemUnique(x: real, m: real, r: real)
    requires m > 0.0 && x >= 0.0
    requires 0.0 <= r < m && IsMultiple(x - r, m)
    ensures Rem(x, m) == Finite(r)
  {
    var n: int :| x - r == Times(n, m);
    var q := x / m;
    assert x == q * m;
    assert q == n as real + r / m;
    SmallQuotient(r, m);
    NonnegativeQuotient(r, m);
    assert n as real <= q < n as real + 1.0;
    assert Trunc(q) == n;
  }
}
