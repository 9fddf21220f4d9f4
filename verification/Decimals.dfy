/**
 The 18-digit fixed-point type `Dec` (types/dec.go). A Dec is its raw integer: the
 value times 10^18. The Go code rounds by mutating a `big.Int` in place; here that
 is the class `BigInt`, and each mutating method is proved against a function of
 the old value. A panic on overflow or on division by zero is the result `None`.
 */
module Decimals {
  import opened Arith

  const PRECISION: nat := 18
  const ONE: int := 1_000_000_000_000_000_000
  const HALF: int := 500_000_000_000_000_000

  lemma OneIsPowerOfTen()
    ensures ONE == Pow(10, PRECISION)
    ensures ONE < 0x1000000000000000
  {
    assert Pow(10, 6) == 1000000;
    PowAdds(10, 6, 6);
    PowAdds(10, 12, 6);
  }

  // ---------------------------------------------------------------- rounding

  /** x / ONE rounded to the nearest integer, ties to even; stated with floor division for either sign. */
  function NearestEven(x: int): int {
    var q, r := x / ONE, x % ONE;
    if r < HALF || (r == HALF && q % 2 == 0) then q else q + 1
  }

  /** What "nearest, ties to even" means, independently of how it is computed. */
  ghost predicate IsNearestEven(x: int, q: int) {
    && 2 * Abs(q * ONE - x) <= ONE
    && (2 * Abs(q * ONE - x) == ONE ==> q % 2 == 0)
  }

  /** NearestEven is the one integer that is nearest with ties to even. */
  lemma NearestEvenIff(x: int, q: int)
    ensures IsNearestEven(x, q) <==> q == NearestEven(x)
  {
    assert IsNearestEven(x, NearestEven(x));
  }

  lemma NearestEvenNegates(x: int)
    ensures NearestEven(-x) == -NearestEven(x)
  {
    var n := NearestEven(x);
    NearestEvenIff(x, n);
    assert (-n) % 2 == 0 <==> n % 2 == 0;
    NearestEvenIff(-x, -n);
  }

  lemma NearestEvenExact(k: int)
    ensures NearestEven(k * ONE) == k
  {
    NearestEvenIff(k * ONE, k);
  }

  lemma NearestEvenMonotone(x: int, y: int)
    requires x <= y
    ensures NearestEven(x) <= NearestEven(y)
  {
  }

  /** Rounding up for positive values, toward zero for negative ones: the smallest integer above x / ONE. */
  function CeilDiv(x: int): int {
    -(-x / ONE)
  }

  /** What "the least integer not below x / ONE" means. */
  ghost predicate IsCeiling(x: int, q: int) { x <= q * ONE < x + ONE }

  /** CeilDiv is that integer: it is not below x / ONE, and no smaller integer is. */
  lemma CeilDivIff(x: int, q: int)
    ensures IsCeiling(x, q) <==> q == CeilDiv(x)
    ensures q * ONE >= x <==> q >= CeilDiv(x)
  {
  }

  /** What "x / ONE without its fraction" means: a remainder smaller than ONE, signed like x. */
  ghost predicate IsTruncation(x: int, q: int) {
    && Abs(x - q * ONE) < ONE
    && (x >= 0 ==> x - q * ONE >= 0)
    && (x <= 0 ==> x - q * ONE <= 0)
  }

  lemma TruncationIff(x: int, q: int)
    ensures IsTruncation(x, q) <==> q == Quo(x, ONE)
  {
  }

  class BigInt {
    var value: int

    constructor (n: int)
      ensures value == n
    {
      value := n;
    }
  }

  method ChopPrecisionAndRound(d: BigInt)
    modifies d
    ensures d.value == NearestEven(old(d.value))
    decreases d.value < 0
  {
    if d.value < 0 {
      NearestEvenNegates(d.value);
      d.value := -d.value;
      ChopPrecisionAndRound(d);
      d.value := -d.value;
      return;
    }
    var quo, rem := Quo(d.value, ONE), d.value - Quo(d.value, ONE) * ONE;
    d.value := quo;
    if rem == 0 || rem < HALF {
      return;
    }
    if rem > HALF {
      d.value := quo + 1;
    } else if quo % 2 != 0 {
      d.value := quo + 1;
    }
  }

  method ChopPrecisionAndTruncate(d: BigInt)
    modifies d
    ensures IsTruncation(old(d.value), d.value)
  {
    d.value := Quo(d.value, ONE);
  }

  method ChopPrecisionAndRoundUp(d: BigInt)
    modifies d
    ensures IsCeiling(old(d.value), d.value)
  {
    if d.value < 0 {
      d.value := -d.value;
      ChopPrecisionAndTruncate(d);
      d.value := -d.value;
      return;
    }
    var quo, rem := Quo(d.value, ONE), d.value - Quo(d.value, ONE) * ONE;
    d.value := quo;
    if rem != 0 {
      d.value := quo + 1;
    }
  }

  // -------------------------------------------------------------- arithmetic

  /** The 315-bit check that ends every Dec operation that can grow. */
  function Checked(x: int): Option<int> {
    if Abs(x) < DEC_LIMIT then Some(x) else None
  }

  function Add(a: int, b: int): Option<int> { Checked(a + b) }

  function Sub(a: int, b: int): Option<int> { Checked(a - b) }

  function Mul(a: int, b: int): Option<int> { Checked(NearestEven(a * b)) }

  /** The dividend is scaled twice and truncated once before the final chop. */
  function Scaled(a: int, b: int): int
    requires b != 0
  {
    Arith.Quo(a * ONE * ONE, b)
  }

  function Div(a: int, b: int): Option<int> {
    if b == 0 then None else Checked(NearestEven(Scaled(a, b)))
  }

  function DivTruncate(a: int, b: int): Option<int> {
    if b == 0 then None else Checked(Arith.Quo(Scaled(a, b), ONE))
  }

  function DivRoundUp(a: int, b: int): Option<int> {
    if b == 0 then None else Checked(CeilDiv(Scaled(a, b)))
  }

  method MulDec(a: int, b: int) returns (r: Option<int>)
    ensures r == Mul(a, b)
  {
    var mul := new BigInt(a * b);
    ChopPrecisionAndRound(mul);
    r := Checked(mul.value);
  }

  method QuoDec(a: int, b: int) returns (r: Option<int>)
    ensures r == Div(a, b)
  {
    var mul := new BigInt(a * ONE);
    mul.value := mul.value * ONE;
    if b == 0 { return None; }
    var quo := new BigInt(Quo(mul.value, b));
    ChopPrecisionAndRound(quo);
    r := Checked(quo.value);
  }

  method QuoTruncateDec(a: int, b: int) returns (r: Option<int>)
    ensures r == DivTruncate(a, b)
  {
    var mul := new BigInt(a * ONE);
    mul.value := mul.value * ONE;
    if b == 0 { return None; }
    var quo := new BigInt(Quo(mul.value, b));
    TruncationIff(quo.value, Quo(quo.value, ONE));
    ChopPrecisionAndTruncate(quo);
    r := Checked(quo.value);
  }

  method QuoRoundUpDec(a: int, b: int) returns (r: Option<int>)
    ensures r == DivRoundUp(a, b)
  {
    var mul := new BigInt(a * ONE);
    mul.value := mul.value * ONE;
    if b == 0 { return None; }
    var quo := new BigInt(Quo(mul.value, b));
    CeilDivIff(quo.value, CeilDiv(quo.value));
    ChopPrecisionAndRoundUp(quo);
    r := Checked(quo.value);
  }

  /** A product that returns is the nearest-even rounding of the exact product; it returns exactly when that fits. */
  lemma MulIsNearest(a: int, b: int, r: int)
    ensures Mul(a, b) == Some(r) <==> IsNearestEven(a * b, r) && Abs(r) < DEC_LIMIT
  {
    NearestEvenIff(a * b, r);
  }

  /** The inner truncation loses less than one part in ONE. */
  lemma ScaledError(a: int, b: int)
    requires b != 0
    ensures Abs(Scaled(a, b) * b - a * ONE * ONE) < Abs(b)
  {
    QuoMeans(a * ONE * ONE, b);
  }

  /** Despite rounding twice, a quotient is within 1/2 + 1/ONE units of the exact a * ONE / b. */
  lemma DivError(a: int, b: int, q: int)
    ensures Div(a, b) == Some(q) ==>
              2 * ONE * Abs(q * b - a * ONE) < (ONE + 2) * Abs(b)
  {
    if Div(a, b) == Some(q) {
      RawDivError(a, b);
    }
  }

  lemma RawDivError(a: int, b: int)
    requires b != 0
    ensures 2 * ONE * Abs(NearestEven(Scaled(a, b)) * b - a * ONE) < (ONE + 2) * Abs(b)
  {
    var s := Scaled(a, b);
    ScaledError(a, b);
    NearestEvenIff(s, NearestEven(s));
    TwoRoundings(NearestEven(s), s, a, b, ONE);
  }

  lemma TwoRoundings(q: int, s: int, a: int, b: int, p: int)
    requires p > 0
    requires 2 * Abs(q * p - s) <= p
    requires Abs(s * b - a * p * p) < Abs(b)
    ensures 2 * p * Abs(q * b - a * p) < (p + 2) * Abs(b)
  {
    SplitError(q, s, a, b, p);
    ErrorSum(p, q * b - a * p, q * p - s, b, s * b - a * p * p);
  }

  lemma SplitError(q: int, s: int, a: int, b: int, p: int)
    ensures p * (q * b - a * p) == (q * p - s) * b + (s * b - a * p * p)
  {
  }

  lemma ErrorSum(p: int, n: int, e: int, b: int, f: int)
    requires p > 0 && p * n == e * b + f
    requires 2 * Abs(e) <= p && Abs(f) < Abs(b)
    ensures 2 * p * Abs(n) < (p + 2) * Abs(b)
  {
    var nn, ee, bb := Abs(n), Abs(e), Abs(b);
    assert p * nn <= ee * bb + Abs(f) by {
      AbsMul(p, n);
      AbsMul(e, b);
    }
    assert 2 * ee * bb <= p * bb by { MulMono(2 * ee, p, bb); }
    ErrorSumPositive(p, nn, ee, bb, Abs(f));
  }

  lemma ErrorSumPositive(p: int, n: int, e: int, b: int, f: int)
    requires p * n <= e * b + f
    requires 2 * e * b <= p * b && f < b
    ensures 2 * p * n < (p + 2) * b
  {
    assert 2 * p * n == 2 * (p * n);
    assert 2 * e * b == 2 * (e * b);
    assert (p + 2) * b == p * b + 2 * b;
  }

  /** Truncating twice is truncating once: DivTruncate is a * ONE / b rounded toward zero. */
  lemma DivTruncateExact(a: int, b: int)
    requires b != 0
    ensures DivTruncate(a, b) == Checked(Arith.Quo(a * ONE, b))
  {
    QuoTwice(a * ONE, b, ONE);
  }

  lemma {:induction false} QuoTwice(m: int, b: int, p: int)
    requires b != 0 && p > 0
    ensures Arith.Quo(Arith.Quo(m * p, b), p) == Arith.Quo(m, b)
    decreases m < 0, b < 0
  {
    hide Arith.Quo;
    var q := Arith.Quo(m * p, b);
    QuoNegates(q, p);
    QuoNegates(m, b);
    QuoNegates(m * p, b);
    if m < 0 {
      NegatedProduct(m, p);
      QuoTwice(-m, b, p);
    } else if b < 0 {
      QuoTwice(m, -b, p);
    } else {
      QuoTwicePositive(m, b, p);
    }
  }

  lemma NegatedProduct(m: int, p: int)
    ensures -m * p == -(m * p)
  {
  }

  lemma QuoTwicePositive(m: nat, b: int, p: int)
    requires b > 0 && p > 0
    ensures Arith.Quo(Arith.Quo(m * p, b), p) == Arith.Quo(m, b)
  {
    FloorTwice(m, b, p);
    FloorLeast(m * p, b, 0);
  }

  lemma FloorTwice(m: nat, b: int, p: int)
    requires b > 0 && p > 0
    ensures m * p >= 0 && m * p / b / p == m / b
  {
    assert m * p >= 0;
    NestedFloor(m * p, b, p);
    NestedFloor(m * p, p, b);
    assert m * p / p == m by {
      FloorLeast(m * p, p, m);
      FloorLeast(m * p, p, m + 1);
      assert (m + 1) * p == m * p + p;
    }
    assert b * p == p * b;
  }

  lemma NestedFloor(x: nat, b: int, c: int)
    requires b > 0 && c > 0
    ensures b * c > 0 && x / b / c == x / (b * c)
  {
    assert b * c > 0;
    var q := x / b / c;
    NestedFloorAt(x, b, c, q);
    NestedFloorAt(x, b, c, q + 1);
  }

  lemma NestedFloorAt(x: nat, b: int, c: int, q: int)
    requires b > 0 && c > 0 && b * c > 0
    ensures q <= x / b / c <==> q <= x / (b * c)
  {
    FloorLeast(x / b, c, q);
    FloorLeast(x, b, q * c);
    FloorLeast(x, b * c, q);
    assert q * c * b == q * (b * c);
  }

  /** For a non-negative dividend and a positive divisor the three roundings are ordered and one unit apart. */
  lemma DivRoundingOrder(a: int, b: int, t: int, q: int, u: int)
    requires a >= 0 && b > 0
    ensures DivTruncate(a, b) == Some(t) && Div(a, b) == Some(q) && DivRoundUp(a, b) == Some(u) ==>
              t <= q <= u <= t + 1
  {
    if DivTruncate(a, b) == Some(t) && Div(a, b) == Some(q) && DivRoundUp(a, b) == Some(u) {
      var s := Scaled(a, b);
      assert s >= 0;
    }
  }

  /** q is at least the exact quotient a * ONE / b. */
  ghost predicate AtLeastExact(a: int, b: int, q: int)
    requires b != 0
  {
    if b > 0 then q * b >= a * ONE else q * b <= a * ONE
  }

  /** The dividend of the same quotient with a positive divisor. */
  function Dividend(a: int, b: int): int { if b < 0 then -a else a }

  /**
   "Rounding up never undershoots" is false of the code: the inner truncation can drop a
   residue before the final round-up sees it. It undershoots exactly when the quotient is positive
   and the remainder of the once-scaled dividend is not zero and so small that scaling it by ONE
   again does not reach the divisor.
   */
  lemma DivRoundUpIsUpperBoundIff(a: int, b: int, u: int)
    requires b != 0
    requires DivRoundUp(a, b) == Some(u)
    ensures var m, k := Dividend(a, b) * ONE, Abs(b);
            AtLeastExact(a, b, u) <==> m <= 0 || !(0 < m % k && m % k * ONE < k)
  {
    if b > 0 {
      UpperBoundIff(a, b, u);
    } else {
      BothNegated(a, b);
      UpperBoundIff(-a, -b, u);
      NegatedFactors(u, b);
    }
  }

  lemma BothNegated(a: int, b: int)
    requires b != 0
    ensures Scaled(-a, -b) == Scaled(a, b)
  {
    assert -a * ONE * ONE == -(a * ONE * ONE);
    QuoNegates(a * ONE * ONE, b);
    QuoNegates(a * ONE * ONE, -b);
  }

  lemma UpperBoundIff(a: int, b: int, u: int)
    requires b > 0 && u == CeilDiv(Scaled(a, b))
    ensures u * b >= a * ONE <==> a * ONE <= 0 || !(0 < a * ONE % b && a * ONE % b * ONE < b)
  {
    if a <= 0 {
      QuoMeans(a * ONE * ONE, b);
      RoundedBack(a, b, Scaled(a, b), u, ONE);
    } else {
      RoundUpPositive(a * ONE, b, u);
    }
  }

  lemma RoundedBack(a: int, b: int, s: int, u: int, p: int)
    requires b > 0 && p > 0 && s * b >= a * p * p && u * p >= s
    ensures u * b >= a * p
  {
    MulMono(s, u * p, b);
    assert u * p * b == u * b * p;
    MulCancel(a * p, u * b, p);
  }

  lemma RoundUpPositive(m: nat, b: int, u: int)
    requires b > 0 && u == CeilDiv(m * ONE / b)
    ensures u * b >= m <==> !(0 < m % b && m % b * ONE < b)
  {
    var k, r := m / b, m % b;
    RoundUpSplit(m, b, k, r);
    var t := r * ONE / b;
    assert 0 <= t < ONE by {
      FloorLeast(r * ONE, b, ONE);
      FloorLeast(r * ONE, b, 0);
    }
    assert t >= 1 <==> r * ONE >= b by { FloorLeast(r * ONE, b, 1); }
    assert u == if t == 0 then k else k + 1;
    assert (k + 1) * b == k * b + b;
  }

  lemma RoundUpSplit(m: int, b: int, k: int, r: int)
    requires b > 0 && m == k * b + r && 0 <= r < b && m >= 0 && k >= 0
    ensures m * ONE / b == k * ONE + r * ONE / b
  {
    var t := r * ONE / b;
    assert r * ONE == t * b + r * ONE % b;
    assert m * ONE == (k * ONE + t) * b + r * ONE % b by {
      assert (k * ONE + t) * b == k * b * ONE + t * b;
    }
    FloorLeast(m * ONE, b, k * ONE + t);
    FloorLeast(m * ONE, b, k * ONE + t + 1);
    assert (k * ONE + t + 1) * b == (k * ONE + t) * b + b;
  }

  /** The smallest Dec divided, rounding up, by a value just above ONE squared is zero: an undershoot. */
  lemma DivRoundUpUndershoots()
    ensures DivRoundUp(1, ONE * ONE + 1) == Some(0)
    ensures !AtLeastExact(1, ONE * ONE + 1, 0)
  {
  }

  // ------------------------------------------------------ when quotients return

  lemma ScaledAbs(a: int, b: int)
    requires b != 0
    ensures Abs(a) * ONE * ONE >= 0 && Abs(Scaled(a, b)) == Abs(a) * ONE * ONE / Abs(b)
    ensures Scaled(a, b) < 0 ==> Dividend(a, b) < 0
    ensures Scaled(a, b) > 0 ==> Dividend(a, b) > 0
  {
    var n, m := Abs(a) * ONE * ONE, Abs(b);
    FloorLeast(n, m, 0);
    assert a * ONE * ONE == if a < 0 then -n else n;
  }

  lemma NearestEvenInLimit(s: int)
    ensures Abs(NearestEven(s)) < DEC_LIMIT <==> Abs(s) < DEC_LIMIT * ONE - HALF
  {
    NearestEvenNegates(s);
  }

  /** A quotient returns exactly when the divisor is not zero and the exact quotient, in magnitude, rounds below the limit. */
  lemma DivReturnsIff(a: int, b: int)
    ensures Div(a, b).Some? <==> b != 0 && Abs(a) * ONE * ONE < (DEC_LIMIT * ONE - HALF) * Abs(b)
  {
    if b != 0 {
      ScaledAbs(a, b);
      NearestEvenInLimit(Scaled(a, b));
      FloorLeast(Abs(a) * ONE * ONE, Abs(b), DEC_LIMIT * ONE - HALF);
      hide NearestEven, Scaled;
    }
  }

  lemma TruncateReturnsIff(a: int, b: int)
    ensures DivTruncate(a, b).Some? <==> b != 0 && Abs(a) * ONE < DEC_LIMIT * Abs(b)
  {
    if b != 0 {
      DivTruncateExact(a, b);
      hide DivTruncate;
      var n, m := Abs(a) * ONE, Abs(b);
      FloorLeast(n, m, 0);
      FloorLeast(n, m, DEC_LIMIT);
      assert a * ONE == if a < 0 then -n else n;
    }
  }

  lemma CeilInLimit(s: int)
    ensures Abs(CeilDiv(s)) < DEC_LIMIT <==> -DEC_LIMIT * ONE < s <= (DEC_LIMIT - 1) * ONE
  {
  }

  /**
   A quotient rounded up returns exactly when the divisor is not zero and the magnitude of the twice-scaled
   quotient is in range: strictly below the limit for a negative quotient, at most one unit below it for a
   positive one.
   */
  lemma RoundUpReturnsIff(a: int, b: int)
    ensures DivRoundUp(a, b).Some? <==>
              b != 0 &&
              if Dividend(a, b) < 0 then Abs(a) * ONE * ONE < DEC_LIMIT * ONE * Abs(b)
              else Abs(a) * ONE * ONE < ((DEC_LIMIT - 1) * ONE + 1) * Abs(b)
  {
    if b != 0 {
      ScaledAbs(a, b);
      CeilInLimit(Scaled(a, b));
      FloorLeast(Abs(a) * ONE * ONE, Abs(b), DEC_LIMIT * ONE);
      FloorLeast(Abs(a) * ONE * ONE, Abs(b), (DEC_LIMIT - 1) * ONE + 1);
      hide CeilDiv, Scaled;
    }
  }

  /** A quotient that is not positive, rounded up, is the exact ceiling: not below the quotient, and less than one above. */
  lemma NegativeRoundUpExact(a: int, b: int, u: int)
    requires b != 0 && Dividend(a, b) <= 0 && DivRoundUp(a, b) == Some(u)
    ensures var m, k := Dividend(a, b) * ONE, Abs(b); u * k >= m > (u - 1) * k
  {
    var n, k := Abs(a) * ONE, Abs(b);
    ScaledAbs(a, b);
    FloorTwice(n, k, ONE);
    assert Abs(a) * ONE * ONE == n * ONE;
    assert u == -(n / k);
    assert n == n / k * k + n % k;
    NegatedFactors(n / k, k);
    assert (u - 1) * k == u * k - k;
  }

  // --------------------------------------------------- integers out of a Dec

  /** `TruncateInt` and `RoundInt` return an Int, so the 255-bit check applies. */
  function ToInt(x: int): Option<int> {
    if Abs(x) < INT_LIMIT then Some(x) else None
  }

  function TruncateInt(d: int): Option<int> { ToInt(Arith.Quo(d, ONE)) }

  function RoundInt(d: int): Option<int> { ToInt(NearestEven(d)) }

  method Ceil(d: int) returns (r: int)
    ensures r % ONE == 0 && d <= r < d + ONE
  {
    var quo, rem := Quo(d, ONE), d - Quo(d, ONE) * ONE;
    QuoMeans(d, ONE);
    if rem == 0 {
      return quo * ONE;
    }
    if rem < 0 {
      return quo * ONE;
    }
    return (quo + 1) * ONE;
  }
}
