/**
 `Dec.Power` (types/dec.go): square-and-multiply where every product is rounded.
 */
module DecPower {
  import opened Arith
  import opened Decimals

  /** Square-and-multiply: what the loop still has to produce is tmp * d^i, for any notion of product. */
  function PowerBy(mul: (int, int) -> Option<int>, tmp: int, d: int, i: nat): Option<int>
    requires i >= 1
    decreases i
  {
    if i == 1 then
      mul(d, tmp)
    else
      var t :- if i % 2 == 0 then Some(tmp) else mul(tmp, d);
      var s :- mul(d, d);
      PowerBy(mul, t, s, i / 2)
  }

  /** The loop with the rounding product of Dec. */
  function PowerFrom(tmp: int, d: int, i: nat): Option<int>
    requires i >= 1
  {
    PowerBy(Mul, tmp, d, i)
  }

  function Power(d: int, power: nat): Option<int> {
    if power == 0 then Some(ONE) else PowerFrom(ONE, d, power)
  }

  method PowerDec(d0: int, power: nat) returns (r: Option<int>)
    ensures r == Power(d0, power)
  {
    if power == 0 {
      return Some(ONE);
    }
    var d, tmp, i := d0, ONE, power;
    while i > 1
      invariant i >= 1
      invariant PowerFrom(tmp, d, i) == Power(d0, power)
      decreases i
    {
      var next := i / 2;
      if i % 2 != 0 {
        var t := MulDec(tmp, d);
        if t.None? { return None; }
        next := (i - 1) / 2;
        var s := MulDec(d, d);
        if s.None? { return None; }
        tmp, d, i := t.value, s.value, next;
      } else {
        var s := MulDec(d, d);
        if s.None? { return None; }
        d, i := s.value, next;
      }
    }
    r := MulDec(d, tmp);
  }

  // ------------------------------------------------- error inside [0, 1]

  /**
   x is a Dec in [0, 1] within (m - 1) / 2 units of the exact m-th power of d, which in raw
   units is d^m / ONE^(m-1); the zeroth power is exact.
   */
  ghost predicate Near(x: int, d: int, m: nat) {
    && 0 <= x <= ONE
    && if m == 0 then x == ONE
       else 2 * Abs(x * Pow(ONE, m - 1) - Pow(d, m)) <= (m - 1) * Pow(ONE, m - 1)
  }

  lemma BoundTimes(e: int, c: int, f: int, k: int)
    requires 2 * Abs(e) <= c && 0 <= f <= k
    ensures 2 * Abs(e * f) <= c * k
  {
    AbsMul(e, f);
    assert 2 * (Abs(e) * f) == 2 * Abs(e) * f;
    MulMono(2 * Abs(e), c, f);
    MulMono(f, k, c);
  }

  lemma SplitProduct(o: int, x: int, y: int, z: int, s: int, t: int, a: int, b: int)
    ensures z * (s * t * o) - a * b == (z * o - x * y) * (s * t) + (x * s - a) * (y * t) + (y * t - b) * a
  {
  }

  lemma ProductError(o: int, x: int, y: int, z: int, s: int, t: int, a: int, b: int, p: nat, q: nat)
    requires o > 0 && s > 0 && t > 0 && 0 <= y <= o && 0 <= a <= o * s
    requires 2 * Abs(z * o - x * y) <= o
    requires 2 * Abs(x * s - a) <= p * s && 2 * Abs(y * t - b) <= q * t
    ensures 2 * Abs(z * (s * t * o) - a * b) <= (p + q + 1) * (s * t * o)
  {
    assert s * t > 0 && 0 <= y * t <= o * t by { MulMono(y, o, t); }
    BoundTimes(z * o - x * y, o, s * t, s * t);
    BoundTimes(x * s - a, p * s, y * t, o * t);
    BoundTimes(y * t - b, q * t, a, o * s);
    SplitProduct(o, x, y, z, s, t, a, b);
    SumBounds(z * (s * t * o) - a * b, (z * o - x * y) * (s * t), (x * s - a) * (y * t), (y * t - b) * a, o, s, t, p, q);
  }

  lemma SumBounds(n: int, f: int, g: int, h: int, o: int, s: int, t: int, p: nat, q: nat)
    requires n == f + g + h
    requires 2 * Abs(f) <= o * (s * t) && 2 * Abs(g) <= p * s * (o * t) && 2 * Abs(h) <= q * t * (o * s)
    ensures 2 * Abs(n) <= (p + q + 1) * (s * t * o)
  {
    var u := s * t * o;
    assert o * (s * t) == u;
    Regroup(p, s, o, t);
    Regroup(q, t, o, s);
    assert t * s * o == u;
    assert (p + q + 1) * u == p * u + q * u + u;
  }

  lemma Regroup(p: int, s: int, o: int, t: int)
    ensures p * s * (o * t) == p * (s * t * o)
  {
  }

  lemma {:induction false} PowAtMost(d: int, m: nat)
    requires 0 <= d <= ONE
    ensures 0 <= Pow(d, m) <= Pow(ONE, m)
  {
    if m > 0 {
      PowAtMost(d, m - 1);
      MulMono(d, ONE, Pow(d, m - 1));
      MulMono(Pow(d, m - 1), Pow(ONE, m - 1), ONE);
    }
  }

  lemma ProductInUnit(x: int, y: int, z: int)
    requires 0 <= x <= ONE && 0 <= y <= ONE && z == NearestEven(x * y)
    ensures 0 <= z <= ONE && Mul(x, y) == Some(z)
  {
    assert 0 <= x * y <= ONE * ONE by { MulMono(x, ONE, y); }
    NearestEvenMonotone(0, x * y);
    NearestEvenMonotone(x * y, ONE * ONE);
    assert NearestEven(0) == 0 && NearestEven(ONE * ONE) == ONE;
    OneIsPowerOfTen();
  }

  lemma NearMulPositive(x: int, y: int, z: int, d: int, m: nat, n: nat)
    requires 0 <= d <= ONE && m > 0 && n > 0
    requires Near(x, d, m) && Near(y, d, n)
    requires IsNearestEven(x * y, z)
    ensures 2 * Abs(z * Pow(ONE, m + n - 1) - Pow(d, m + n)) <= (m + n - 1) * Pow(ONE, m + n - 1)
  {
    var s, t := Pow(ONE, m - 1), Pow(ONE, n - 1);
    PowPositive(ONE, m - 1);
    PowPositive(ONE, n - 1);
    PowAtMost(d, m);
    PowAdds(d, m, n);
    PowAdds(ONE, m - 1, n - 1);
    assert Pow(ONE, m + n - 1) == s * t * ONE;
    ProductError(ONE, x, y, z, s, t, Pow(d, m), Pow(d, n), m - 1, n - 1);
  }

  /** Multiplying two approximations adds their exponents and at most half a unit of error. */
  lemma NearMul(x: int, y: int, d: int, m: nat, n: nat)
    requires 0 <= d <= ONE
    requires Near(x, d, m) && Near(y, d, n)
    ensures Mul(x, y).Some? && Near(Mul(x, y).value, d, m + n)
  {
    var z := NearestEven(x * y);
    ProductInUnit(x, y, z);
    if m == 0 {
      assert x * y == y * ONE;
      NearestEvenExact(y);
    } else if n == 0 {
      NearestEvenExact(x);
    } else {
      NearestEvenIff(x * y, z);
      NearMulPositive(x, y, z, d, m, n);
    }
  }

  lemma {:induction false} PowerFromNear(tmp: int, x: int, i: nat, d: int, k: nat, m: nat)
    requires 0 <= d <= ONE && i >= 1
    requires Near(tmp, d, k) && Near(x, d, m)
    ensures PowerFrom(tmp, x, i).Some? && Near(PowerFrom(tmp, x, i).value, d, k + m * i)
    decreases i
  {
    if i == 1 {
      NearMul(x, tmp, d, m, k);
    } else {
      NearMul(x, x, d, m, m);
      var s := Mul(x, x).value;
      HalvedExponent(m, i);
      if i % 2 == 0 {
        PowerFromNear(tmp, s, i / 2, d, k, m + m);
      } else {
        NearMul(tmp, x, d, k, m);
        PowerFromNear(Mul(tmp, x).value, s, i / 2, d, k + m, m + m);
      }
    }
  }

  lemma HalvedExponent(m: nat, i: nat)
    ensures m * i >= 0
    ensures (m + m) * (i / 2) == if i % 2 == 0 then m * i else m * i - m
  {
    var h := i / 2;
    assert i == 2 * h + i % 2;
    assert m * (2 * h) == (m + m) * h;
    assert m * (2 * h + 1) == m * (2 * h) + m;
  }

  /**
   For a Dec in [0, 1] and n >= 1, Power never panics, stays in [0, 1], and is within (n - 1) / 2
   units of the exact power: |r - d^n / ONE^(n-1)| <= (n - 1) / 2, cleared of its denominators.
   */
  lemma PowerErrorBound(d: int, n: nat)
    requires 0 <= d <= ONE && n >= 1
    ensures Power(d, n).Some?
    ensures 0 <= Power(d, n).value <= ONE
    ensures 2 * Abs(Power(d, n).value * Pow(ONE, n - 1) - Pow(d, n)) <= (n - 1) * Pow(ONE, n - 1)
  {
    assert Pow(d, 1) == d * Pow(d, 0) == d;
    PowerFromNear(ONE, d, n, d, 0, 1);
  }

  ghost predicate KeepsNonNegative(mul: (int, int) -> Option<int>) {
    forall x: nat, y: nat :: mul(x, y).Some? ==> mul(x, y).value >= 0
  }

  lemma {:induction false} PowerByNonNegative(mul: (int, int) -> Option<int>, tmp: nat, d: nat, i: nat)
    requires KeepsNonNegative(mul) && i >= 1
    ensures PowerBy(mul, tmp, d, i).Some? ==> PowerBy(mul, tmp, d, i).value >= 0
    decreases i
  {
    if i > 1 {
      var t := if i % 2 == 0 then Some(tmp) else mul(tmp, d);
      if t.Some? && mul(d, d).Some? {
        PowerByNonNegative(mul, t.value, mul(d, d).value, i / 2);
      }
    }
  }

  lemma MulKeepsNonNegative()
    ensures KeepsNonNegative(Mul)
  {
    forall x: nat, y: nat | Mul(x, y).Some? ensures Mul(x, y).value >= 0 {
      assert x * y >= 0;
      NearestEvenMonotone(0, x * y);
    }
  }

  lemma PowerNonNegative(d: nat, n: nat)
    ensures Power(d, n).Some? ==> Power(d, n).value >= 0
  {
    hide PowerBy, Mul;
    if n > 0 {
      MulKeepsNonNegative();
      PowerByNonNegative(Mul, ONE, d, n);
    }
  }

  // ------------------------------------------------------- whole numbers

  lemma MulWhole(j: int, k: int)
    ensures Mul(j * ONE, k * ONE) == Checked(j * k * ONE)
  {
    assert j * ONE * (k * ONE) == j * k * ONE * ONE;
    NearestEvenExact(j * k * ONE);
  }

  lemma {:induction false} PowSquares(k: int, n: nat)
    ensures Pow(k * k, n) == Pow(k, 2 * n)
  {
    if n > 0 {
      PowSquares(k, n - 1);
      assert Pow(k, 2 * n) == k * Pow(k, 2 * n - 1) == k * (k * Pow(k, 2 * (n - 1)));
    }
  }

  lemma {:induction false} PowAtLeastOne(k: int, n: nat)
    requires k != 0
    ensures Abs(Pow(k, n)) >= 1
  {
    if n > 0 {
      PowAtLeastOne(k, n - 1);
      AbsMul(k, Pow(k, n - 1));
      MulMono(1, Abs(k), Abs(Pow(k, n - 1)));
    }
  }

  /** A product with a non-zero factor is out of range as soon as the other factor is. */
  lemma OutOfRangeStays(x: int, y: int)
    requires y != 0 && Checked(x * ONE).None?
    ensures Checked(x * y * ONE).None?
  {
    AbsMul(x, y);
    MulMono(1, Abs(y), Abs(x));
    AbsMul(x, ONE);
    AbsMul(x * y, ONE);
    MulMono(Abs(x), Abs(x * y), ONE);
  }

  lemma {:induction false} PowerFromWhole(t: int, k: int, i: nat)
    requires t != 0 && k != 0 && i >= 1
    ensures PowerFrom(t * ONE, k * ONE, i) == Checked(t * Pow(k, i) * ONE)
    decreases i
  {
    if i == 1 {
      MulWhole(k, t);
      assert Pow(k, 1) == k * Pow(k, 0) == k;
      assert k * t == t * k;
    } else {
      var c := if i % 2 == 0 then t else t * k;
      MulWhole(k, k);
      MulWhole(t, k);
      SquaredBase(t, k, i, c);
      var p, h := Pow(k * k, i / 2 - 1), i / 2;
      PowAtLeastOne(k * k, h - 1);
      PowAtLeastOne(k * k, h);
      if Checked(k * k * ONE).None? {
        Rearrange(c, k * k, p);
        OutOfRangeStays(k * k, c * p);
      } else if i % 2 != 0 && Checked(c * ONE).None? {
        OutOfRangeStays(c, Pow(k * k, h));
      } else {
        PowerFromWhole(c, k * k, h);
      }
    }
  }

  lemma SquaredBase(t: int, k: int, i: nat, c: int)
    requires t != 0 && k != 0 && c == if i % 2 == 0 then t else t * k
    ensures c != 0 && t * Pow(k, i) == c * Pow(k * k, i / 2)
  {
    var h := i / 2;
    PowSquares(k, h);
    if i % 2 != 0 {
      assert i == 2 * h + 1;
      assert t * (k * Pow(k, 2 * h)) == t * k * Pow(k, 2 * h);
    }
  }

  lemma Rearrange(c: int, s: int, p: int)
    ensures c * (s * p) == s * (c * p)
  {
  }

  lemma {:induction false} PowerFromZero(tmp: int, i: nat)
    requires i >= 1
    ensures PowerFrom(tmp, 0, i) == Some(0)
    decreases i
  {
    assert Mul(0, tmp) == Some(0) && Mul(tmp, 0) == Some(0);
    if i > 1 {
      PowerFromZero(tmp, i / 2);
      PowerFromZero(0, i / 2);
    }
  }

  /** On whole numbers Power is exact for every exponent, and panics exactly when the true power is out of range. */
  lemma PowerOfWhole(k: int, n: nat)
    ensures Power(k * ONE, n) == Checked(Pow(k, n) * ONE)
  {
    if n > 0 {
      if k == 0 {
        PowerFromZero(ONE, n);
      } else {
        PowerFromWhole(1, k, n);
      }
    }
  }
}
