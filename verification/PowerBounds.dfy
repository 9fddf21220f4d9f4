/**
 `Dec.Power` (types/dec.go) for every argument: its error above one, when it returns, and its sign.
 */
module PowerBounds {
  import opened Arith
  import opened Decimals
  import opened DecPower

  // ------------------------------------------------------------- the sign law

  function Negated(r: Option<int>): Option<int> {
    if r.None? then None else Some(-r.value)
  }

  lemma MulNegates(a: int, b: int)
    ensures Mul(-a, b) == Negated(Mul(a, b)) && Mul(a, -b) == Negated(Mul(a, b)) && Mul(-a, -b) == Mul(a, b)
  {
    NegatedFactors(a, b);
    NearestEvenNegates(a * b);
    hide NearestEven;
  }

  lemma {:induction false} NegatedStart(tmp: int, d: int, i: nat)
    requires i >= 1
    ensures PowerFrom(-tmp, d, i) == Negated(PowerFrom(tmp, d, i))
    decreases i
  {
    hide Mul;
    MulNegates(d, tmp);
    MulNegates(tmp, d);
    if i > 1 && Mul(d, d).Some? {
      var s := Mul(d, d).value;
      if i % 2 == 0 {
        NegatedStart(tmp, s, i / 2);
      } else if Mul(tmp, d).Some? {
        NegatedStart(Mul(tmp, d).value, s, i / 2);
      }
    }
  }

  lemma NegatedBase(tmp: int, d: int, i: nat)
    requires i >= 1
    ensures PowerFrom(tmp, -d, i) == if i % 2 == 0 then PowerFrom(tmp, d, i) else Negated(PowerFrom(tmp, d, i))
  {
    hide Mul;
    MulNegates(d, tmp);
    MulNegates(tmp, d);
    MulNegates(d, d);
    if i > 1 && i % 2 != 0 && Mul(d, d).Some? && Mul(tmp, d).Some? {
      NegatedStart(Mul(tmp, d).value, Mul(d, d).value, i / 2);
    }
  }

  /** A power of -d is the power of d, with its sign changed for an odd exponent, panics included. */
  lemma PowerOfNegative(d: int, n: nat)
    ensures Power(-d, n) == if n % 2 == 0 then Power(d, n) else Negated(Power(d, n))
  {
    hide PowerFrom;
    if n > 0 { NegatedBase(ONE, d, n); }
  }

  lemma {:induction false} PowOfNegative(d: int, n: nat)
    ensures Pow(-d, n) == if n % 2 == 0 then Pow(d, n) else -Pow(d, n)
  {
    if n > 0 {
      PowOfNegative(d, n - 1);
      NegatedFactors(d, Pow(d, n - 1));
    }
  }

  /** Between minus one and one, a power returns, stays there, and is within (n - 1) / 2 units of the exact one. */
  lemma SmallPowerError(d: int, n: nat)
    requires Abs(d) <= ONE && n >= 1
    ensures Power(d, n).Some? && Abs(Power(d, n).value) <= ONE
    ensures 2 * Abs(Power(d, n).value * Pow(ONE, n - 1) - Pow(d, n)) <= (n - 1) * Pow(ONE, n - 1)
  {
    hide Power, Pow;
    if d >= 0 {
      PowerErrorBound(d, n);
    } else {
      PowerErrorBound(-d, n);
      PowerOfNegative(-d, n);
      PowOfNegative(-d, n);
      var r := Power(-d, n).value;
      NegatedFactors(r, Pow(ONE, n - 1));
    }
  }

  // ---------------------------------------------------------- error above one

  /**
   x is an approximation of the m-th power of d, off by at most what one unit more or less in d makes, and
   half a unit less; the zeroth power is exact.
   */
  ghost predicate NearLarge(x: int, d: int, m: nat) {
    if m == 0 then x == ONE
    else
      2 * Abs(x * Pow(ONE, m - 1) - Pow(d, m)) + Pow(ONE, m - 1) <= 2 * (Pow(Abs(d) + 1, m) - Pow(Abs(d), m))
  }

  lemma {:induction false} PowAbs(d: int, m: nat)
    ensures Abs(Pow(d, m)) == Pow(Abs(d), m)
  {
    if m > 0 {
      PowAbs(d, m - 1);
      AbsMul(d, Pow(d, m - 1));
    }
  }

  /** (D + 1)^m is at least (ONE + 1) ONE^(m-1) for D at least ONE. */
  lemma {:induction false} PowAboveOne(c: int, m: nat)
    requires c >= ONE + 1 && m >= 1
    ensures Pow(c, m) >= (ONE + 1) * Pow(ONE, m - 1) > 0
  {
    if m == 1 {
      assert Pow(c, 1) == c * Pow(c, 0) && Pow(ONE, 0) == 1;
    } else {
      PowAboveOne(c, m - 1);
      PowPositive(ONE, m - 2);
      GrowsByOne(c, Pow(c, m - 1), Pow(ONE, m - 2));
    }
  }

  lemma GrowsByOne(c: int, p: int, w: int)
    requires c >= ONE + 1 && w > 0 && p >= (ONE + 1) * w
    ensures c * p >= (ONE + 1) * (ONE * w) > 0
  {
    MulMono(ONE, c, p);
    MulMono((ONE + 1) * w, p, ONE);
    assert (ONE + 1) * w * ONE == (ONE + 1) * (ONE * w);
    assert ONE * w > 0;
    assert p >= 0;
  }

  /** The error of a rounded product of two approximations x and y of a and b, in units scaled by s and t. */
  lemma LargeProduct(o: int, x: int, y: int, z: int, s: int, t: int, a: int, b: int, p: int, q: int)
    requires o > 0 && s > 0 && t > 0
    requires 2 * Abs(x * s - a) + s <= 2 * (p - Abs(a)) && 2 * Abs(y * t - b) + t <= 2 * (q - Abs(b))
    requires p >= (o + 1) * s && q >= (o + 1) * t
    requires 2 * Abs(z * o - x * y) <= o
    ensures 2 * Abs(z * (s * t * o) - a * b) + s * t * o <= 2 * (p * q - Abs(a * b))
  {
    var a', b' := Abs(a), Abs(b);
    SplitProduct(o, x, y, z, s, t, a, b);
    AbsMul(a, b);
    RoundingPart(z * o - x * y, o, s * t);
    MixedPart(x * s - a, y * t, a', s, p, q, t);
    OtherPart(y * t - b, a, b', t, q);
    Expand(p, q, s, t, a', b');
    Room(o, s, t, p, q);
    assert s * t * o == o * (s * t);
    SumUp(z * (s * t * o) - a * b, (z * o - x * y) * (s * t), (x * s - a) * (y * t), (y * t - b) * a,
          o * (s * t), p * q, p * t, s * q, s * t, a' * b', a' * q, a' * t);
  }

  lemma Expand(p: int, q: int, s: int, t: int, a: int, b: int)
    ensures (2 * (p - a) - s) * (2 * q - t)
         == 4 * (p * q) - 2 * (p * t) - 4 * (a * q) + 2 * (a * t) - 2 * (s * q) + s * t
    ensures (2 * (q - b) - t) * a == 2 * (a * q) - 2 * (a * b) - a * t
  {
  }

  lemma RoundingPart(rho: int, o: int, w: int)
    requires 2 * Abs(rho) <= o && w >= 0
    ensures 2 * Abs(rho * w) <= o * w
  {
    BoundTimes(rho, o, w, w);
  }

  /** |ex| |yy| with |ex| at most p - a - s/2 and |yy| at most q - t/2, four times. */
  lemma MixedPart(ex: int, yy: int, a: int, s: int, p: int, q: int, t: int)
    requires 2 * Abs(ex) + s <= 2 * (p - a) && 2 * Abs(yy) + t <= 2 * q && s > 0 && t > 0
    ensures 4 * Abs(ex * yy) <= (2 * (p - a) - s) * (2 * q - t)
  {
    AbsMul(ex, yy);
    MulMono(2 * Abs(ex), 2 * (p - a) - s, 2 * Abs(yy));
    MulMono(2 * Abs(yy), 2 * q - t, 2 * (p - a) - s);
    assert 2 * Abs(ex) * (2 * Abs(yy)) == 4 * (Abs(ex) * Abs(yy));
    assert 2 * Abs(yy) * (2 * (p - a) - s) == (2 * (p - a) - s) * (2 * Abs(yy));
    assert (2 * q - t) * (2 * (p - a) - s) == (2 * (p - a) - s) * (2 * q - t);
  }

  lemma OtherPart(ey: int, a: int, b: int, t: int, q: int)
    requires 2 * Abs(ey) + t <= 2 * (q - b)
    ensures 2 * Abs(ey * a) <= (2 * (q - b) - t) * Abs(a)
  {
    AbsMul(ey, a);
    MulMono(2 * Abs(ey), 2 * (q - b) - t, Abs(a));
    assert 2 * Abs(ey) * Abs(a) == 2 * (Abs(ey) * Abs(a));
  }

  lemma SumUp(n: int, f: int, g: int, h: int, o: int, pq: int, pt: int, sq: int, st: int, ab: int, aq: int, at: int)
    requires n == f + g + h && 2 * Abs(f) <= o && st >= 0
    requires 4 * Abs(g) <= 4 * pq - 2 * pt - 4 * aq + 2 * at - 2 * sq + st && 2 * Abs(h) <= 2 * aq - 2 * ab - at
    requires pt + sq >= 2 * o + 2 * st
    ensures 2 * Abs(n) + o <= 2 * (pq - ab)
  {
  }

  /** There is room for the rounding: both upper bounds are more than one unit above one. */
  lemma Room(o: int, s: int, t: int, p: int, q: int)
    requires s > 0 && t > 0 && p >= (o + 1) * s && q >= (o + 1) * t
    ensures p * t + s * q >= 2 * (o * (s * t)) + 2 * (s * t)
  {
    MulMono((o + 1) * s, p, t);
    MulMono((o + 1) * t, q, s);
    assert (o + 1) * s * t == o * (s * t) + s * t;
    assert (o + 1) * t * s == o * (s * t) + s * t;
    assert q * s == s * q;
  }

  /** Multiplying two approximations adds their exponents. */
  lemma NearLargeMul(x: int, y: int, d: int, m: nat, n: nat, z: int)
    requires Abs(d) >= ONE && NearLarge(x, d, m) && NearLarge(y, d, n) && z == NearestEven(x * y)
    ensures NearLarge(z, d, m + n)
  {
    if m == 0 {
      assert x * y == y * ONE;
      NearestEvenExact(y);
    } else if n == 0 {
      NearestEvenExact(x);
    } else {
      NearestEvenIff(x * y, z);
      hide NearestEven;
      var c := Abs(d) + 1;
      var s, t := Pow(ONE, m - 1), Pow(ONE, n - 1);
      PowAboveOne(c, m);
      PowAboveOne(c, n);
      PowPositive(ONE, m - 1);
      PowPositive(ONE, n - 1);
      PowAbs(d, m);
      PowAbs(d, n);
      PowAbs(d, m + n);
      PowAdds(d, m, n);
      PowAdds(c, m, n);
      PowAdds(ONE, m - 1, n - 1);
      assert Pow(ONE, m + n - 1) == ONE * Pow(ONE, m + n - 2);
      assert Pow(ONE, m + n - 1) == s * t * ONE;
      hide Pow;
      LargeProduct(ONE, x, y, z, s, t, Pow(d, m), Pow(d, n), Pow(c, m), Pow(c, n));
    }
  }

  /** The largest value the n-th power can be taken for is in range. */
  ghost predicate FitsPower(d: int, n: nat)
    requires n >= 1
  {
    Pow(Abs(d) + 1, n) < DEC_LIMIT * Pow(ONE, n - 1)
  }

  lemma {:induction false} PowFaster(c: int, j: nat)
    requires c >= ONE
    ensures Pow(c, j) >= Pow(ONE, j) > 0
  {
    if j > 0 {
      PowFaster(c, j - 1);
      MulMono(ONE, c, Pow(c, j - 1));
      MulMono(Pow(ONE, j - 1), Pow(c, j - 1), ONE);
    }
  }

  /** An approximation of a power up to the n-th is in range when the n-th fits. */
  lemma InLimit(z: int, d: int, j: nat, n: nat)
    requires Abs(d) >= ONE && 1 <= j <= n && NearLarge(z, d, j) && FitsPower(d, n)
    ensures Abs(z) < DEC_LIMIT
  {
    var c, w, v := Abs(d) + 1, Pow(ONE, j - 1), Pow(ONE, n - j);
    PowPositive(ONE, j - 1);
    PowAbs(d, j);
    PowAdds(ONE, j - 1, n - j);
    PowAdds(c, j, n - j);
    PowFaster(c, n - j);
    PowPositive(c, j);
    hide Pow;
    assert Abs(z * w) <= Pow(c, j);
    AbsMul(z, w);
    BelowLimit(Abs(z), w, v, Pow(c, j), Pow(c, n - j), DEC_LIMIT);
  }

  lemma BelowLimit(z: nat, w: int, v: int, p: int, q: int, limit: int)
    requires w > 0 && v > 0 && p > 0 && q >= v && z * w <= p && p * q < limit * (w * v)
    ensures z < limit
  {
    MulMono(z * w, p, v);
    MulMono(v, q, p);
    assert z * w * v == z * (w * v) && v * p == p * v && q * p == p * q;
    assert w * v > 0;
    if z >= limit { MulMono(limit, z, w * v); }
  }

  /** A power that can be computed is near the exact one, and it can be computed when the largest candidate fits. */
  lemma {:induction false} PowerFromNearLarge(tmp: int, x: int, i: nat, d: int, k: nat, m: nat, n: nat)
    requires Abs(d) >= ONE && i >= 1 && m >= 1 && NearLarge(tmp, d, k) && NearLarge(x, d, m) && k + m * i == n
    ensures n >= 1
    ensures PowerFrom(tmp, x, i).Some? ==> NearLarge(PowerFrom(tmp, x, i).value, d, n)
    ensures FitsPower(d, n) ==> PowerFrom(tmp, x, i).Some?
    decreases i
  {
    hide NearLarge, FitsPower, NearestEven;
    MulMono(1, i, m);
    if i == 1 {
      NearLargeMul(x, tmp, d, m, k, NearestEven(x * tmp));
      if FitsPower(d, n) { InLimit(NearestEven(x * tmp), d, n, n); }
    } else {
      var z := NearestEven(x * x);
      NearLargeMul(x, x, d, m, m, z);
      MulMono(2, i, m);
      if FitsPower(d, n) { InLimit(z, d, m + m, n); }
      HalvedExponent(m, i);
      if i % 2 == 0 {
        if Mul(x, x).Some? { PowerFromNearLarge(tmp, z, i / 2, d, k, m + m, n); }
      } else {
        var t := NearestEven(tmp * x);
        NearLargeMul(tmp, x, d, k, m, t);
        if FitsPower(d, n) { InLimit(t, d, k + m, n); }
        if Mul(x, x).Some? && Mul(tmp, x).Some? {
          PowerFromNearLarge(t, z, i / 2, d, k + m, m + m, n);
        }
      }
    }
  }

  /**
   From one upward in magnitude, a power that returns is off by no more than one unit more or less in d
   would make, and it returns whenever the largest value that leaves fits.
   */
  lemma LargePowerError(d: int, n: nat)
    requires Abs(d) >= ONE && n >= 1
    ensures Power(d, n).Some? ==>
              Abs(Power(d, n).value * Pow(ONE, n - 1) - Pow(d, n)) <= Pow(Abs(d) + 1, n) - Pow(Abs(d), n)
    ensures Pow(Abs(d) + 1, n) < DEC_LIMIT * Pow(ONE, n - 1) ==> Power(d, n).Some?
  {
    assert Pow(d, 1) == d * Pow(d, 0) && Pow(Abs(d), 1) == Abs(d) * Pow(Abs(d), 0);
    assert Pow(Abs(d) + 1, 1) == (Abs(d) + 1) * Pow(Abs(d) + 1, 0) && Pow(ONE, 0) == 1;
    assert NearLarge(d, d, 1) && NearLarge(ONE, d, 0);
    PowPositive(ONE, n - 1);
    hide Pow, PowerFrom;
    PowerFromNearLarge(ONE, d, n, d, 0, 1, n);
  }

  /** One and a half squared is two and a quarter. */
  lemma PowerOfFraction()
    ensures Power(3 * HALF, 2) == Some(9 * HALF / 2)
  {
    assert Mul(3 * HALF, 3 * HALF) == Some(9 * HALF / 2);
    assert Mul(9 * HALF / 2, ONE) == Some(9 * HALF / 2);
  }
}
