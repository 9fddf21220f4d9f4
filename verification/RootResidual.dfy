/**
 What a root of any degree is worth (types/dec.go, `ApproxRoot`): where the loop ends, and how close the
 exact power of the result is to the argument when it stopped on a small step.
 */
module RootResidual {
  import opened Arith
  import opened Decimals
  import opened DecPower
  import opened PowerBounds
  import opened DecRoot

  /** r^k is within c / 2 units of d, for a power of Decs: both sides are in raw units times ONE^(k-1). */
  ghost predicate WithinHalves(d: int, k: nat, r: int, c: int)
    requires k >= 1
  {
    2 * Abs(Pow(r, k) - d * Pow(ONE, k - 1)) <= c * Pow(ONE, k - 1)
  }

  lemma AbsSum(x: int, y: int)
    ensures Abs(x + y) <= Abs(x) + Abs(y)
  {
  }

  lemma AbsScaled(x: int, b: int, c: int)
    requires Abs(x) <= b && c >= 0
    ensures Abs(x * c) <= b * c
  {
    AbsMul(x, c);
    MulMono(Abs(x), b, c);
  }

  /** q is the rounded quotient of d by b, and the step from g by a k-th of q - g is small. */
  lemma StepResidual(d: int, g: int, b: int, q: int, k: nat, delta: int)
    requires k >= 2 && b >= 1 && Abs(q * b - d * ONE) < b
    requires delta == Arith.Quo(q - g, k) && Abs(delta) <= 1
    ensures Abs(g * b - d * ONE) <= 2 * k * b
  {
    QuoMeans(q - g, k);
    SmallNumerator(q - g, k, delta);
    hide Arith.Quo;
    NearQuotient(g, q, b, d * ONE, k);
  }

  lemma NearQuotient(g: int, q: int, b: int, n: int, k: nat)
    requires b >= 1 && Abs(g - q) <= 2 * k - 1 && Abs(q * b - n) < b
    ensures Abs(g * b - n) <= 2 * k * b
  {
    AbsScaled(g - q, 2 * k - 1, b);
    assert (g - q) * b == g * b - q * b && (2 * k - 1) * b == 2 * k * b - b;
  }

  lemma SmallNumerator(x: int, k: nat, delta: int)
    requires k >= 2 && Abs(x - delta * k) < k && Abs(delta) <= 1
    ensures Abs(-x) <= 2 * k - 1
  {
    assert delta == -1 || delta == 0 || delta == 1;
  }

  /** From the computed power to the exact one: w is ONE^(k-2) and p the exact g^(k-1). */
  lemma ExactResidual(d: int, g: int, b: int, k: nat, w: int, p: int)
    requires k >= 2 && 1 <= b <= ONE && 0 <= g <= ONE && w > 0
    requires Abs(g * b - d * ONE) <= 2 * k * b && 2 * Abs(b * w - p) <= k * w
    ensures 2 * Abs(g * p - d * (ONE * w)) <= 5 * k * (ONE * w)
  {
    ScaledByPower(g * b - d * ONE, k, b, w);
    ScaledByGuess(p - b * w, k, w, g);
    Regroup(g, b, d, w, p);
    SumOfParts(g * p - d * (ONE * w), (g * b - d * ONE) * w, (p - b * w) * g, k * (ONE * w));
    assert 5 * k * (ONE * w) == 5 * (k * (ONE * w));
  }

  lemma ScaledByPower(y: int, k: nat, b: int, w: int)
    requires Abs(y) <= 2 * k * b && 1 <= b <= ONE && w > 0
    ensures Abs(y * w) <= 2 * (k * (ONE * w))
  {
    AbsScaled(y, 2 * k * b, w);
    MulMono(b, ONE, w);
    MulMono(b * w, ONE * w, 2 * k);
    assert 2 * k * b * w == b * w * (2 * k) && ONE * w * (2 * k) == 2 * (k * (ONE * w));
  }

  lemma ScaledByGuess(x: int, k: nat, w: int, g: int)
    requires 2 * Abs(-x) <= k * w && w > 0 && 0 <= g <= ONE
    ensures 2 * Abs(x * g) <= k * (ONE * w)
  {
    AbsScaled(2 * x, k * w, g);
    assert 2 * x * g == 2 * (x * g);
    assert k * w >= 0;
    MulMono(g, ONE, k * w);
    assert g * (k * w) == k * w * g && ONE * (k * w) == k * (ONE * w);
  }

  lemma Regroup(g: int, b: int, d: int, w: int, p: int)
    ensures g * p - d * (ONE * w) == (g * b - d * ONE) * w + (p - b * w) * g
  {
    assert (g * b - d * ONE) * w == g * b * w - d * ONE * w;
    assert (p - b * w) * g == p * g - b * w * g;
    assert g * b * w == b * w * g && d * ONE * w == d * (ONE * w);
  }

  lemma SumOfParts(t: int, a: int, b: int, v: int)
    requires t == a + b && Abs(a) <= 2 * v && 2 * Abs(b) <= v
    ensures 2 * Abs(t) <= 5 * v
  {
  }

  /** Neighbouring values below one have k-th powers within k units. */
  lemma {:induction false} PowNeighbours(x: int, y: int, k: nat)
    requires 0 <= x <= ONE && 0 <= y <= ONE && Abs(x - y) <= 1 && k >= 1
    ensures Abs(Pow(x, k) - Pow(y, k)) <= k * Pow(ONE, k - 1)
  {
    if k == 1 {
      assert Pow(x, 1) == x * Pow(x, 0) && Pow(y, 1) == y * Pow(y, 0) && Pow(ONE, 0) == 1;
    } else {
      PowNeighbours(x, y, k - 1);
      PowAtMost(y, k - 1);
      PowPositive(ONE, k - 2);
      NeighbourStep(x, y, Pow(x, k - 1), Pow(y, k - 1), Pow(ONE, k - 2), k);
    }
  }

  lemma NeighbourStep(x: int, y: int, px: int, py: int, w: int, k: nat)
    requires k >= 2 && w > 0 && 0 <= x <= ONE && Abs(x - y) <= 1 && 0 <= py <= ONE * w
    requires Abs(px - py) <= (k - 1) * w
    ensures Abs(x * px - y * py) <= k * (ONE * w)
  {
    NeighbourIdentity(x, y, px, py);
    AbsScaled(px - py, (k - 1) * w, x);
    AbsScaled(x - y, 1, py);
    assert (k - 1) * w >= 0;
    MulMono(x, ONE, (k - 1) * w);
    AbsSum((px - py) * x, (x - y) * py);
    Reorder(k, w, x);
  }

  lemma NeighbourIdentity(x: int, y: int, px: int, py: int)
    ensures x * px - y * py == (px - py) * x + (x - y) * py
  {
  }

  lemma Reorder(k: int, w: int, x: int)
    ensures x * ((k - 1) * w) == (k - 1) * w * x
    ensures ONE * ((k - 1) * w) + ONE * w == k * (ONE * w)
  {
    assert ONE * ((k - 1) * w) == (k - 1) * (ONE * w);
  }

  /** prev is the computed power of a guess g of at most one, within its error bound of the exact one. */
  ghost predicate NearPower(g: int, k: nat, prev: int)
    requires k >= 2
  {
    0 <= prev <= ONE && 2 * Abs(prev * Pow(ONE, k - 2) - Pow(g, k - 1)) <= (k - 2) * Pow(ONE, k - 2)
  }

  function Divisor(prev: int): int { if prev == 0 then 1 else prev }

  /** A small step between guesses of at most one leaves the result's power within 3.5 k units of d. */
  lemma SmallStepResidual(d: nat, k: nat, g: int, prev: int, q: int, delta: int)
    requires k >= 2 && 1 <= g <= ONE && 0 <= g + delta <= ONE && NearPower(g, k, prev)
    requires Abs(q * Divisor(prev) - d * ONE) < Divisor(prev)
    requires delta == Arith.Quo(q - g, k) && Abs(delta) <= 1
    ensures WithinHalves(d, k, g + delta, 7 * k)
  {
    hide Pow;
    var b, w := Divisor(prev), Pow(ONE, k - 2);
    StepResidual(d, g, b, q, k, delta);
    hide Arith.Quo;
    PowPositive(ONE, k - 2);
    ReplacedPower(prev, b, k, w, Pow(g, k - 1));
    ExactResidual(d, g, b, k, w, Pow(g, k - 1));
    PowStep(g, k);
    PowStep(ONE, k - 1);
    PowNeighbours(g + delta, g, k);
    CombineResidual(Pow(g + delta, k), Pow(g, k), d * Pow(ONE, k - 1), k, Pow(ONE, k - 1));
  }

  lemma PowStep(x: int, k: nat)
    requires k >= 1
    ensures Pow(x, k) == x * Pow(x, k - 1)
  {
  }

  lemma ReplacedPower(prev: int, b: int, k: nat, w: int, p: int)
    requires k >= 2 && w > 0 && 0 <= prev && b == (if prev == 0 then 1 else prev)
    requires 2 * Abs(prev * w - p) <= (k - 2) * w
    ensures 2 * Abs(b * w - p) <= k * w
  {
    assert k * w == (k - 2) * w + 2 * w;
    if prev == 0 { AbsSum(b * w, -p); } else { assert (k - 2) * w <= k * w; }
  }

  lemma CombineResidual(x: int, y: int, z: int, k: nat, w: int)
    requires Abs(x - y) <= k * w && 2 * Abs(y - z) <= 5 * k * w
    ensures 2 * Abs(x - z) <= 7 * k * w
  {
    AbsSum(x - y, y - z);
    assert 7 * k * w == 5 * k * w + 2 * (k * w) by { assert 5 * k * w == 5 * (k * w) && 7 * k * w == 7 * (k * w); }
  }

  // ----------------------------------------------------------------- above one

  /** (g + 1)^j exceeds g^j by at most j (g + 1)^(j-1). */
  lemma {:induction false} PowGap(g: int, j: nat)
    requires g >= 0 && j >= 1
    ensures 0 <= Pow(g, j) <= Pow(g + 1, j) <= Pow(g, j) + j * Pow(g + 1, j - 1)
    ensures Pow(g + 1, j - 1) > 0
  {
    PowPositive(g + 1, j - 1);
    if j == 1 {
      assert Pow(g, 1) == g * Pow(g, 0) && Pow(g + 1, 1) == (g + 1) * Pow(g + 1, 0);
    } else {
      PowGap(g, j - 1);
      GapStep(g, Pow(g, j - 1), Pow(g + 1, j - 1), Pow(g + 1, j - 2), j);
    }
  }

  lemma GapStep(g: int, a: int, p: int, w: int, j: nat)
    requires g >= 0 && 0 <= a <= p <= a + (j - 1) * w && p == (g + 1) * w && w > 0 && j >= 2
    ensures 0 <= g * a <= (g + 1) * p <= g * a + j * p
  {
    GapProduct(g, p - a, w, j);
    MulMono(0, a, g);
    MulMono(a, p, g);
    GapSums(g, a, p, j);
  }

  lemma GapSums(g: int, a: int, p: int, j: nat)
    ensures g * (p - a) == g * p - g * a && (g + 1) * p == g * p + p && j * p == (j - 1) * p + p
    ensures a * g == g * a && p * g == g * p
  {
  }

  /** Neighbours have k-th powers that differ by at most k (g + 1)^(k-1). */
  lemma LargeNeighbours(r: int, g: int, k: nat)
    requires g >= 1 && Abs(r - g) <= 1 && k >= 1
    ensures Abs(Pow(r, k) - Pow(g, k)) <= k * Pow(g + 1, k - 1)
  {
    hide Pow;
    PowGap(g, k);
    PowGap(g - 1, k);
    PowMonotone(g, g + 1, k - 1);
    MulMono(Pow(g, k - 1), Pow(g + 1, k - 1), k);
    assert Pow(g, k - 1) * k == k * Pow(g, k - 1) && Pow(g + 1, k - 1) * k == k * Pow(g + 1, k - 1);
    assert r == g - 1 || r == g || r == g + 1;
    assert k * Pow(g + 1, k - 1) >= 0;
  }

  lemma {:induction false} PowMonotone(x: int, y: int, k: nat)
    requires 0 <= x <= y
    ensures 0 <= Pow(x, k) <= Pow(y, k)
  {
    if k > 0 {
      PowMonotone(x, y, k - 1);
      MulMono(x, y, Pow(x, k - 1));
      MulMono(Pow(x, k - 1), Pow(y, k - 1), y);
    }
  }

  /** prev is the computed power of a guess of at least one, off by what one unit more or less in g makes. */
  ghost predicate NearLargePower(g: int, k: nat, prev: int)
    requires k >= 2
  {
    prev >= 0 && Abs(prev * Pow(ONE, k - 2) - Pow(g, k - 1)) <= Pow(g + 1, k - 1) - Pow(g, k - 1)
  }

  /** The one that replaces a power of zero is no further from the exact power. */
  lemma ReplacedLargePower(prev: int, w: int, a: int, p: int)
    requires prev >= 0 && w > 0 && a >= w && p >= a && Abs(prev * w - a) <= p - a
    ensures Abs(Divisor(prev) * w - a) <= p - a && Divisor(prev) * w <= p && Divisor(prev) >= 1
  {
  }

  /** From the computed power to the exact one: w is ONE^(k-2), a is g^(k-1) and p is (g+1)^(k-1). */
  lemma ExactLargeResidual(d: int, g: int, b: int, k: nat, w: int, a: int, p: int, gap: int)
    requires k >= 2 && g >= 0 && w > 0 && b >= 0 && p > 0
    requires Abs(g * b - d * ONE) <= 2 * k * b && Abs(b * w - a) <= p - a && b * w <= p && g * (p - a) <= gap
    ensures Abs(g * a - d * (ONE * w)) <= 2 * k * p + gap
  {
    Regroup(g, b, d, w, a);
    FirstPart(g * b - d * ONE, k, b, w, p);
    SecondPart(a - b * w, p - a, g, gap);
    AbsSum((g * b - d * ONE) * w, (a - b * w) * g);
  }

  lemma FirstPart(y: int, k: nat, b: int, w: int, p: int)
    requires Abs(y) <= 2 * k * b && w > 0 && b * w <= p
    ensures Abs(y * w) <= 2 * k * p
  {
    AbsScaled(y, 2 * k * b, w);
    MulMono(b * w, p, 2 * k);
    assert 2 * k * b * w == b * w * (2 * k);
  }

  lemma SecondPart(x: int, y: int, g: int, gap: int)
    requires Abs(-x) <= y && g >= 0 && g * y <= gap
    ensures Abs(x * g) <= gap
  {
    AbsScaled(x, y, g);
  }

  /** A small step from a guess of at least one leaves the result's power within 4 k (g + 1)^(k-1) of d. */
  lemma LargeStepResidual(d: nat, k: nat, g: int, prev: int, q: int, delta: int)
    requires k >= 2 && g >= ONE && NearLargePower(g, k, prev)
    requires Abs(q * Divisor(prev) - d * ONE) < Divisor(prev)
    requires delta == Arith.Quo(q - g, k) && Abs(delta) <= 1
    ensures Abs(Pow(g + delta, k) - d * Pow(ONE, k - 1)) <= 4 * k * Pow(g + 1, k - 1)
  {
    hide Pow, Divisor;
    var b, w, a, p := Divisor(prev), Pow(ONE, k - 2), Pow(g, k - 1), Pow(g + 1, k - 1);
    PowPositive(ONE, k - 2);
    PowGap(g, k - 1);
    PowerAtLeast(g, k);
    ReplacedLargePower(prev, w, a, p);
    StepResidual(d, g, b, q, k, delta);
    hide Arith.Quo;
    GapTimes(g, k);
    ExactLargeResidual(d, g, b, k, w, a, p, (k - 1) * p);
    PowStep(g, k);
    PowStep(ONE, k - 1);
    LargeNeighbours(g + delta, g, k);
    CombineLarge(Pow(g + delta, k), Pow(g, k), d * Pow(ONE, k - 1), k, p);
  }

  lemma PowerAtLeast(g: int, k: nat)
    requires g >= ONE && k >= 2
    ensures Pow(g, k - 1) >= Pow(ONE, k - 2)
  {
    PowMonotone(ONE, g, k - 1);
    PowPositive(ONE, k - 2);
    assert Pow(ONE, k - 1) == ONE * Pow(ONE, k - 2);
  }

  lemma GapTimes(g: int, k: nat)
    requires g >= 0 && k >= 2
    ensures g * (Pow(g + 1, k - 1) - Pow(g, k - 1)) <= (k - 1) * Pow(g + 1, k - 1)
  {
    PowGap(g, k - 1);
    PowPositive(g + 1, k - 2);
    assert Pow(g + 1, k - 1) == (g + 1) * Pow(g + 1, k - 2);
    hide Pow;
    GapProduct(g, Pow(g + 1, k - 1) - Pow(g, k - 1), Pow(g + 1, k - 2), k);
  }

  lemma GapProduct(g: int, x: int, w: int, k: nat)
    requires g >= 0 && w > 0 && k >= 2 && x <= (k - 1) * w
    ensures g * x <= (k - 1) * ((g + 1) * w)
  {
    MulMono(x, (k - 1) * w, g);
    assert (k - 1) * w >= 0;
    MulMono(g, g + 1, (k - 1) * w);
    assert x * g == g * x && (k - 1) * w * g == g * ((k - 1) * w);
    assert (g + 1) * ((k - 1) * w) == (k - 1) * ((g + 1) * w);
  }

  lemma CombineLarge(x: int, y: int, z: int, k: nat, p: int)
    requires p > 0 && Abs(x - y) <= k * p && Abs(y - z) <= 2 * k * p + (k - 1) * p
    ensures Abs(x - z) <= 4 * k * p
  {
    ManyTimes(k, p);
    AbsSum(x - y, y - z);
  }

  lemma ManyTimes(k: nat, p: int)
    requires p > 0
    ensures k * p + (2 * k * p + (k - 1) * p) <= 4 * k * p
  {
    assert 2 * k * p == 2 * (k * p) && (k - 1) * p == k * p - p && 4 * k * p == 4 * (k * p);
  }

  // ---------------------------------------------------------------------- the run

  /** Where a run stopped on a small step, that step came from a positive guess. */
  lemma {:induction false} LastStep(step: Step, n: Newton, iter: nat, r: Newton) returns (g: int)
    requires forall x :: x >= 1 && step(x).Some? ==> step(x).value.guess >= 1
    requires iter <= MAX_ITERATIONS && n.guess >= 1 && Abs(n.delta) > 1
    requires IterateFrom(step, n, iter) == Some(r) && Abs(r.delta) <= 1
    ensures g >= 1 && step(g) == Some(r)
    decreases MAX_ITERATIONS - iter
  {
    var s := step(n.guess).value;
    if Abs(s.delta) <= 1 {
      g := n.guess;
    } else {
      g := LastStep(step, s, iter + 1, r);
    }
  }

  /** A k-th root of d that is off by about four units at most, whatever its size. */
  ghost predicate RootBound(d: int, k: nat, r: int)
    requires k >= 1
  {
    Abs(Pow(r, k) - d * Pow(ONE, k - 1)) <= 4 * k * Pow((if r < ONE then ONE else r) + 2, k - 1)
  }

  lemma SmallIsBound(d: int, k: nat, r: int)
    requires k >= 1 && 0 <= r <= ONE && WithinHalves(d, k, r, 7 * k)
    ensures RootBound(d, k, r)
  {
    PowPositive(ONE, k - 1);
    PowMonotone(ONE, ONE + 2, k - 1);
    hide Pow;
    var w, v := Pow(ONE, k - 1), Pow(ONE + 2, k - 1);
    MulMono(w, v, 8 * k);
    assert 7 * k * w <= 8 * k * w && w * (8 * k) == 8 * k * w && v * (8 * k) == 2 * (4 * k * v);
  }

  lemma LargeIsBound(d: int, k: nat, g: int, r: int)
    requires k >= 1 && g >= ONE && Abs(r - g) <= 1
    requires Abs(Pow(r, k) - d * Pow(ONE, k - 1)) <= 4 * k * Pow(g + 1, k - 1)
    ensures RootBound(d, k, r)
  {
    var m := if r < ONE then ONE else r;
    hide Pow;
    PowMonotone(g + 1, m + 2, k - 1);
    LeftMono(4 * k, Pow(g + 1, k - 1), Pow(m + 2, k - 1));
  }

  lemma LeftMono(c: nat, x: int, y: int)
    requires x <= y
    ensures c * x <= c * y
  {
    MulMono(x, y, c);
  }

  lemma ShortcutBound(d: int, k: nat)
    requires k >= 2 && (d == 0 || d == ONE)
    ensures RootBound(d, k, d)
  {
    assert Pow(d, k) == d * Pow(d, k - 1);
    PowPositive((if d < ONE then ONE else d) + 2, k - 1);
    assert 4 * k * Pow((if d < ONE then ONE else d) + 2, k - 1) >= 0;
    hide Pow;
  }

  // ----------------------------------------------------------- when it returns

  /** The largest guess there can be has a power that fits. */
  ghost predicate Moderate(d: nat, k: nat)
    requires k >= 2
  {
    var c := (d + 1) * ONE + 1;
    c < DEC_LIMIT && Pow(c, k - 1) < DEC_LIMIT * Pow(ONE, k - 2)
  }

  lemma PowerReturns(d: nat, k: nat, g: int)
    requires k >= 2 && Moderate(d, k) && 1 <= g <= (d + 1) * ONE
    ensures Power(g, k - 1).Some?
  {
    hide Power;
    if g <= ONE {
      SmallPowerError(g, k - 1);
    } else {
      PowMonotone(g + 1, (d + 1) * ONE + 1, k - 1);
      LargePowerError(g, k - 1);
    }
  }

  lemma CorrectReturns(d: nat, k: nat, g: int, prev: nat, top: int)
    requires k >= 2 && top == (d + 1) * ONE && 1 <= g <= top && top < DEC_LIMIT
    ensures var s := Correct(d, k, g, prev); s.Some? && s.value.guess <= top
  {
    var b := Divisor(prev);
    var q := NearestEven(Scaled(d, b));
    RawDivError(d, b);
    BelowGuess(Abs(q * b - d * ONE), b, ONE);
    NonNegativeDiv(d, b);
    hide NearestEven, Scaled;
    QuotientAtMost(q, b, d * ONE);
    MeanAtMost(q, g, k, top);
  }

  lemma QuotientAtMost(q: int, b: int, n: nat)
    requires b >= 1 && Abs(q * b - n) < b
    ensures q <= n
  {
    MulMono(1, b, n);
    assert (n + 1) * b == n * b + b;
    if q > n { MulMono(n + 1, q, b); }
  }

  lemma MeanAtMost(q: int, g: int, k: nat, top: int)
    requires k >= 2 && 0 <= q <= top && 1 <= g <= top
    ensures var delta := Arith.Quo(q - g, k); -top <= delta <= top && 1 <= g + delta <= top
  {
    ShrinkStops(q, g, k);
    if q >= g {
      FloorLeast(q - g, k, q - g + 1);
      MulMono(1, k, q - g + 1);
      FloorLeast(q - g, k, 0);
    } else {
      FloorLeast(g - q, k, g - q + 1);
      MulMono(1, k, g - q + 1);
      FloorLeast(g - q, k, 0);
    }
  }

  /** A run whose steps return, and stay below some guess, returns. */
  lemma {:induction false} RunReturns(step: Step, n: Newton, iter: nat, top: int)
    requires forall x :: 1 <= x <= top ==> step(x).Some? && 1 <= step(x).value.guess <= top
    requires iter <= MAX_ITERATIONS && 1 <= n.guess <= top
    ensures var r := IterateFrom(step, n, iter); r.Some? && 1 <= r.value.guess <= top
    decreases MAX_ITERATIONS - iter
  {
    if Abs(n.delta) > 1 && iter < MAX_ITERATIONS {
      RunReturns(step, step(n.guess).value, iter + 1, top);
    }
  }

  // ------------------------------------------------------------------- the whole run

  /**
   s is one Newton step for the k-th root of d from g, on rounded arithmetic: q is within one unit of d
   divided by a value prev that is as close to g^(k-1) as a rounded power is, and the step is a k-th of q - g.
   */
  ghost predicate IsNewtonStep(d: int, k: nat, g: int, s: Newton)
    requires k >= 2
  {
    exists prev, q ::
      && Corrects(d, k, g, prev, s, q)
      && (g <= ONE ==> NearPower(g, k, prev)) && (g >= ONE ==> NearLargePower(g, k, prev))
  }

  /** Each element is the step from the one before, which was not small. */
  ghost predicate IsTrace(step: Step, ns: seq<Newton>) {
    forall i :: 1 <= i < |ns| ==> Follows(step, ns[i - 1], ns[i])
  }

  predicate Follows(step: Step, n: Newton, s: Newton) {
    Abs(n.delta) > 1 && n.guess >= 1 && step(n.guess) == Some(s)
  }

  lemma {:induction false} TraceOf(step: Step, n: Newton, iter: nat, r: Newton) returns (ns: seq<Newton>)
    requires forall x :: x >= 1 && step(x).Some? ==> step(x).value.guess >= 1
    requires iter <= MAX_ITERATIONS && n.guess >= 1 && IterateFrom(step, n, iter) == Some(r)
    ensures 1 <= |ns| <= 101 - iter && ns[0] == n && ns[|ns| - 1] == r && IsTrace(step, ns)
    ensures Abs(r.delta) <= 1 || |ns| == 101 - iter
    decreases MAX_ITERATIONS - iter
  {
    if Abs(n.delta) <= 1 || iter == MAX_ITERATIONS {
      ns := [n];
    } else {
      var s := step(n.guess).value;
      var rest := TraceOf(step, s, iter + 1, r);
      ns := [n] + rest;
      TraceCons(step, n, rest);
    }
  }

  lemma TraceCons(step: Step, n: Newton, rest: seq<Newton>)
    requires IsTrace(step, rest) && rest != [] && Follows(step, n, rest[0])
    ensures IsTrace(step, [n] + rest)
  {
    var ns := [n] + rest;
    forall i | 1 <= i < |ns| ensures Follows(step, ns[i - 1], ns[i]) {
      if i > 1 { assert Follows(step, rest[i - 1 - 1], rest[i - 1]); }
    }
  }

  /** A run from one, going on while the steps are not small, each related to the guess before it by good. */
  ghost predicate IsRun(good: (int, Newton) -> bool, ns: seq<Newton>) {
    && ns != [] && ns[0] == Newton(ONE, ONE)
    && forall i :: 1 <= i < |ns| ==> GoesOn(good, ns[i - 1], ns[i])
  }

  ghost predicate GoesOn(good: (int, Newton) -> bool, n: Newton, s: Newton) {
    Abs(n.delta) > 1 && good(n.guess, s)
  }

  ghost function NewtonRelation(d: int, k: nat): (int, Newton) -> bool
    requires k >= 2
  {
    (g, s) => IsNewtonStep(d, k, g, s)
  }

  /** r is where a run ends that stopped on a small step, or made exactly a hundred steps. */
  ghost predicate EndsRun(good: (int, Newton) -> bool, r: Newton) {
    exists ns :: IsRun(good, ns) && ns[|ns| - 1] == r && |ns| <= 101 && (Abs(r.delta) <= 1 || |ns| == 101)
  }

  lemma TraceEndsRun(step: Step, good: (int, Newton) -> bool, r: Newton)
    requires forall x :: x >= 1 && step(x).Some? ==> step(x).value.guess >= 1 && good(x, step(x).value)
    requires IterateFrom(step, Newton(ONE, ONE), 0) == Some(r)
    ensures EndsRun(good, r)
  {
    hide IterateFrom;
    var ns := TraceOf(step, Newton(ONE, ONE), 0, r);
    forall i | 1 <= i < |ns| ensures GoesOn(good, ns[i - 1], ns[i]) {
      assert Follows(step, ns[i - 1], ns[i]);
    }
  }

  /**
   The root of a non-negative Dec, of whatever degree, is where a run of Newton steps from one ends that
   stopped on a small step, or made exactly a hundred steps, none but possibly the last one small.
   */
  method RootByRunDec(a: nat, root: nat) returns (r: Option<Newton>)
    ensures root >= 2 && a > 0 && a != ONE && r.Some? ==> EndsRun(NewtonRelation(a, root), r.value)
    ensures a > 0 && r.Some? ==> r.value.guess >= 1
    ensures r == Root(a, root)
  {
    hide Root, IterateFrom, Iterate, NewtonStep, Power, Correct, NearPower, NearLargePower, Corrects;
    r := PositiveRootDec(a, root);
    if root >= 2 && a > 0 && a != ONE && r.Some? {
      RootIsRun(a, root, ONE);
      ghost var step := NewtonStep(a, root);
      forall x | x >= 1 && step(x).Some? ensures step(x).value.guess >= 1 && IsNewtonStep(a, root, x, step(x).value) {
        NewtonStepIs(a, root, x);
        KnownPower(a, root, x);
        PowerNonNegative(x, root - 1);
        PowerIsNear(x, root);
        GuessStaysPositive(a, root, x, Power(x, root - 1).value);
        CorrectMeans(a, root, x, Power(x, root - 1).value, step(x).value);
      }
      hide IsNewtonStep;
      TraceEndsRun(step, NewtonRelation(a, root), r.value);
    }
  }

  /** The root of a non-negative Dec, which returns whenever powers of the largest possible guess fit. */
  method ModerateRootDec(a: nat, root: nat) returns (r: Option<Newton>)
    ensures root >= 2 && a > 0 && a != ONE && r.Some? ==> EndsRun(NewtonRelation(a, root), r.value)
    ensures root >= 2 && Moderate(a, root) ==> r.Some? && r.value.guess < DEC_LIMIT
    ensures a > 0 && r.Some? ==> r.value.guess >= 1
    ensures r == Root(a, root)
  {
    hide Root, IterateFrom, Iterate, NewtonStep, Power, Correct, Pow, Arith.Quo, Moderate, EndsRun, NewtonRelation;
    r := RootByRunDec(a, root);
    if root >= 2 && Moderate(a, root) {
      ghost var step, top := NewtonStep(a, root), (a + 1) * ONE;
      ModerateFits(a, root);
      forall x | 1 <= x <= top ensures step(x).Some? && 1 <= step(x).value.guess <= top {
        NewtonStepIs(a, root, x);
        KnownPower(a, root, x);
        PowerReturns(a, root, x);
        PowerNonNegative(x, root - 1);
        GuessStaysPositive(a, root, x, Power(x, root - 1).value);
        CorrectReturns(a, root, x, Power(x, root - 1).value, top);
      }
      RunReturns(step, Newton(ONE, ONE), 0, top);
      if a == 0 { ZeroRoot(root); } else { RootIsRun(a, root, ONE); }
    }
  }

  /** What the last step of a run that stopped says about the result. */
  ghost predicate Residual(d: int, k: nat, r: int)
    requires k >= 1
  {
    RootBound(d, k, r) && (r < ONE ==> WithinHalves(d, k, r, 7 * k))
  }

  lemma StepIsSmall(d: nat, k: nat, g: int, prev: int, s: Newton, q: int)
    requires k >= 2 && Corrects(d, k, g, prev, s, q) && Abs(s.delta) <= 1
    ensures g <= s.guess + 1 && s.guess <= g + 1
  {
    hide Divisor, Arith.Quo;
  }

  lemma NotSmall(d: nat, k: nat, r: int)
    requires k >= 1 && r >= ONE && RootBound(d, k, r)
    ensures Residual(d, k, r)
  {
    hide RootBound;
  }

  lemma SmallStepIs(d: nat, k: nat, g: int, prev: int, q: int, s: Newton)
    requires k >= 2 && 1 <= g <= ONE && 1 <= s.guess <= ONE && Corrects(d, k, g, prev, s, q) && Abs(s.delta) <= 1
    requires NearPower(g, k, prev)
    ensures Residual(d, k, s.guess)
  {
    hide Pow, RootBound, WithinHalves, Arith.Quo, NearPower, Divisor;
    SmallStepResidual(d, k, g, prev, q, s.delta);
    SmallIsBound(d, k, s.guess);
  }

  lemma LargeStepIs(d: nat, k: nat, g: int, prev: int, q: int, s: Newton)
    requires k >= 2 && g >= ONE && Corrects(d, k, g, prev, s, q) && Abs(s.delta) <= 1
    requires NearLargePower(g, k, prev)
    ensures RootBound(d, k, s.guess)
  {
    hide Pow, RootBound, Arith.Quo, NearLargePower, Divisor;
    LargeStepResidual(d, k, g, prev, q, s.delta);
    LargeIsBound(d, k, g, s.guess);
  }

  lemma PowerIsNear(g: int, k: nat)
    requires k >= 2 && g >= 1
    ensures var p := Power(g, k - 1);
            p.Some? ==> (g <= ONE ==> NearPower(g, k, p.value)) && (g >= ONE ==> NearLargePower(g, k, p.value))
  {
    hide Power, Pow;
    PowerNonNegative(g, k - 1);
    if g <= ONE { PowerErrorBound(g, k - 1); }
    if g >= ONE { LargePowerError(g, k - 1); }
  }

  method CertifiedRootDec(a: nat, root: nat) returns (r: Option<Newton>)
    ensures root >= 2 && a > 0 && a != ONE && r.Some? ==> EndsRun(NewtonRelation(a, root), r.value)
    ensures root >= 2 && r.Some? && Abs(r.value.delta) <= 1 ==> Residual(a, root, r.value.guess)
    ensures root >= 2 && Moderate(a, root) ==> r.Some? && r.value.guess < DEC_LIMIT
    ensures a > 0 && r.Some? ==> r.value.guess >= 1
    ensures r == Root(a, root)
  {
    hide Root, Residual, RootBound, IterateFrom, Iterate, NewtonStep, Power, Correct, Moderate, EndsRun, NewtonRelation;
    hide NearPower, NearLargePower, Corrects;
    r := ModerateRootDec(a, root);
    if root >= 2 && r.Some? && Abs(r.value.delta) <= 1 {
      if a == 0 {
        ZeroRoot(root);
        ShortcutResidual(a, root);
      } else if a == ONE {
        RootIsRun(a, root, ONE);
        ShortcutResidual(a, root);
      } else {
        RootIsRun(a, root, ONE);
        ghost var step := NewtonStep(a, root);
        forall x | x >= 1 && step(x).Some? ensures step(x).value.guess >= 1 {
          NewtonStepIs(a, root, x);
          KnownPower(a, root, x);
          PowerNonNegative(x, root - 1);
          GuessStaysPositive(a, root, x, Power(x, root - 1).value);
        }
        ghost var from := LastStep(step, Newton(ONE, ONE), 0, r.value);
        NewtonStepIs(a, root, from);
        KnownPower(a, root, from);
        PowerNonNegative(from, root - 1);
        PowerIsNear(from, root);
        ghost var prev := Power(from, root - 1).value;
        CorrectMeans(a, root, from, prev, r.value);
        ghost var q :| Corrects(a, root, from, prev, r.value, q);
        assert from <= r.value.guess + 1 && r.value.guess <= from + 1 by { StepIsSmall(a, root, from, prev, r.value, q); }
        if from <= ONE && r.value.guess <= ONE {
          SmallStepIs(a, root, from, prev, q, r.value);
        } else {
          LargeStepIs(a, root, from, prev, q, r.value);
          NotSmall(a, root, r.value.guess);
        }
      }
    }
  }

  lemma ShortcutResidual(d: int, k: nat)
    requires k >= 2 && (d == 0 || d == ONE)
    ensures Residual(d, k, d)
  {
    hide RootBound, WithinHalves;
    ShortcutBound(d, k);
    ZeroResidual(k);
  }

  /**
   `ApproxRoot`, with the last step of its loop, for either sign and any degree. If it stopped on a small
   step, the root is right to about four units, and below one the k-th power of the result is within
   3.5 k units of the argument. In any case it is where a run of rounded Newton steps from one ends. It
   returns whenever powers of the largest possible guess fit, and the result has the sign of the argument.
   */
  method ApproxRootDec(d: int, root: nat) returns (r: Option<int>, delta: int)
    ensures root >= 2 && r.Some? && Abs(delta) <= 1 && Abs(r.value) < ONE ==> WithinHalves(Abs(d), root, Abs(r.value), 7 * root)
    ensures root >= 2 && r.Some? && Abs(delta) <= 1 ==> RootBound(Abs(d), root, Abs(r.value))
    ensures r.Some? ==> (d < 0 <==> r.value < 0) && (d == 0 <==> r.value == 0)
    ensures root >= 2 && Moderate(Abs(d), root) ==> r.Some?
    ensures root >= 2 && r.Some? && d != 0 && Abs(d) != ONE ==> EndsRun(NewtonRelation(Abs(d), root), Newton(delta, Abs(r.value)))
    ensures Abs(d) < DEC_LIMIT && root == 1 ==> r == Some(d)
    ensures Abs(d) < DEC_LIMIT && root == 0 ==> r == Some(if d < 0 then -ONE else if d == 0 then 0 else ONE)
    ensures r == ApproxRoot(d, root)
  {
    hide Root, WithinHalves, RootBound, Moderate, EndsRun, NewtonRelation;
    var a := Abs(d);
    LowDegrees(a);
    if root >= 2 && Moderate(a, root) { ModerateFits(a, root); }
    if d < 0 && Checked(-d).None? { return None, 0; }
    var absRoot := CertifiedRootDec(a, root);
    if absRoot.None? { return None, 0; }
    var g := absRoot.value.guess;
    if a == 0 { RootOfZero(root); }
    if d < 0 {
      var neg := Checked(-g);
      return neg, absRoot.value.delta;
    }
    return Some(g), absRoot.value.delta;
  }

  lemma ModerateFits(d: nat, k: nat)
    requires k >= 2 && Moderate(d, k)
    ensures (d + 1) * ONE + 1 < DEC_LIMIT
  {
    hide Pow;
  }

  lemma RootOfZero(k: nat)
    ensures Root(0, k) == Some(Newton(0, 0))
  {
    hide IterateFrom;
  }

  lemma LowDegrees(d: nat)
    ensures Root(d, 1) == Some(Newton(0, d)) && Root(d, 0) == Some(Newton(0, if d == 0 then 0 else ONE))
  {
  }

  lemma RootIsRun(d: nat, k: nat, one: int)
    requires k >= 2 && d > 0 && one == ONE
    ensures d != ONE ==> Root(d, k) == IterateFrom(NewtonStep(d, k), Newton(one, one), 0)
    ensures d == ONE ==> Root(d, k) == Some(Newton(0, one))
  {
    hide IterateFrom;
  }

  lemma ZeroRoot(k: nat)
    requires k >= 2
    ensures Root(0, k) == Some(Newton(0, 0))
  {
    hide IterateFrom;
  }

  lemma ZeroResidual(k: nat)
    requires k >= 2
    ensures WithinHalves(0, k, 0, 7 * k)
  {
    PowPositive(ONE, k - 1);
    assert Pow(0, k) == 0;
    assert 7 * k * Pow(ONE, k - 1) >= 0;
  }

  /** q is the rounded quotient that a step from g to s uses. */
  ghost predicate Corrects(d: int, k: nat, g: int, prev: int, s: Newton, q: int)
    requires k >= 2
  {
    && Abs(q * Divisor(prev) - d * ONE) < Divisor(prev)
    && s.delta == Arith.Quo(q - g, k) && s.guess == g + s.delta
  }

  lemma CorrectMeans(d: int, k: nat, g: int, prev: nat, s: Newton)
    requires k >= 2
    ensures Correct(d, k, g, prev) == Some(s) ==> exists q :: Corrects(d, k, g, prev, s, q)
  {
    var b := Divisor(prev);
    var q := NearestEven(Scaled(d, b));
    RawDivError(d, b);
    BelowGuess(Abs(q * b - d * ONE), b, ONE);
    hide NearestEven, Scaled, Arith.Quo;
    if Correct(d, k, g, prev) == Some(s) {
      assert Corrects(d, k, g, prev, s, q);
    }
  }

  lemma CubePower(g: int, sq: int)
    requires 0 < sq < 100 * ONE && 2 * Abs(sq * ONE - g * g) < ONE
    ensures Power(g, 2) == Some(sq)
  {
    NearestEvenIff(g * g, sq);
    NearestEvenExact(sq);
    assert Mul(g, g) == Some(sq) && Mul(sq, ONE) == Some(sq);
  }

  /** The quotient of eight by a square, with n the scaled quotient and q the rounded one. */
  lemma CubeQuotient(sq: int, n: nat, q: int)
    requires 0 < sq && n * sq <= 8 * ONE * ONE * ONE < n * sq + sq && 0 <= q < 100 * ONE && 2 * Abs(q * ONE - n) < ONE
    ensures Div(8 * ONE, sq) == Some(q)
  {
    assert Scaled(8 * ONE, sq) == n by {
      FloorLeast(8 * ONE * ONE * ONE, sq, n);
      FloorLeast(8 * ONE * ONE * ONE, sq, n + 1);
      assert (n + 1) * sq == n * sq + sq;
    }
    NearestEvenIff(n, q);
    hide NearestEven, Scaled;
  }

  lemma CubeCorrection(g: int, sq: int, q: int, delta: int)
    requires 1 <= g < 10 * ONE && sq > 0 && 0 <= q < 100 * ONE && Div(8 * ONE, sq) == Some(q)
    requires if q >= g then 0 <= q - g - 3 * delta < 3 else -3 < q - g - 3 * delta <= 0
    ensures Correct(8 * ONE, 3, g, sq) == Some(Newton(delta, g + delta))
  {
    hide Div;
    assert Arith.Quo(q - g, 3) == delta;
  }

  lemma FirstCubeSteps()
    ensures IterateFrom(NewtonStep(8 * ONE, 3), Newton(1000000000000000000, 1000000000000000000), 0)
         == IterateFrom(NewtonStep(8 * ONE, 3), Newton(-871111111111111111, 2462222222222222222), 2)
  {
    hide IterateFrom, NewtonStep, Iterate, Power, Div, Correct;
    CubePower(1000000000000000000, 1000000000000000000);
    CubeQuotient(1000000000000000000, 8000000000000000000000000000000000000, 8000000000000000000);
    CubeCorrection(1000000000000000000, 1000000000000000000, 8000000000000000000, 2333333333333333333);
    KnownPower(8 * ONE, 3, 1000000000000000000);
    OneMoreStep(8 * ONE, 3, Newton(1000000000000000000, 1000000000000000000), 0);
    CubePower(3333333333333333333, 11111111111111111109);
    CubeQuotient(11111111111111111109, 720000000000000000136800000000000000, 720000000000000000);
    CubeCorrection(3333333333333333333, 11111111111111111109, 720000000000000000, -871111111111111111);
    KnownPower(8 * ONE, 3, 3333333333333333333);
    OneMoreStep(8 * ONE, 3, Newton(2333333333333333333, 3333333333333333333), 1);
  }

  lemma SecondCubeSteps()
    ensures IterateFrom(NewtonStep(8 * ONE, 3), Newton(-871111111111111111, 2462222222222222222), 2)
         == IterateFrom(NewtonStep(8 * ONE, 3), Newton(-78203748530291860, 2003137499141287238), 4)
  {
    hide IterateFrom, NewtonStep, Iterate, Power, Div, Correct;
    CubePower(2462222222222222222, 6062538271604938271);
    CubeQuotient(6062538271604938271, 1319579298570292848989339480570303335, 1319579298570292849);
    CubeCorrection(2462222222222222222, 6062538271604938271, 1319579298570292849, -380880974550643124);
    KnownPower(8 * ONE, 3, 2462222222222222222);
    OneMoreStep(8 * ONE, 3, Newton(-871111111111111111, 2462222222222222222), 2);
    CubePower(2081341247671579098, 4331981389259085564);
    CubeQuotient(4331981389259085564, 1846730002080703517965921657271232347, 1846730002080703518);
    CubeCorrection(2081341247671579098, 4331981389259085564, 1846730002080703518, -78203748530291860);
    KnownPower(8 * ONE, 3, 2081341247671579098);
    OneMoreStep(8 * ONE, 3, Newton(-380880974550643124, 2081341247671579098), 3);
  }

  lemma ThirdCubeSteps()
    ensures IterateFrom(NewtonStep(8 * ONE, 3), Newton(-78203748530291860, 2003137499141287238), 4)
         == IterateFrom(NewtonStep(8 * ONE, 3), Newton(-4911663441779, 2000000000012062239), 6)
  {
    hide IterateFrom, NewtonStep, Iterate, Power, Div, Correct;
    CubePower(2003137499141287238, 4012559840466010530);
    CubeQuotient(4012559840466010530, 1993739736743937577912332685618006272, 1993739736743937578);
    CubeCorrection(2003137499141287238, 4012559840466010530, 1993739736743937578, -3132587465783220);
    KnownPower(8 * ONE, 3, 2003137499141287238);
    OneMoreStep(8 * ONE, 3, Newton(-78203748530291860, 2003137499141287238), 4);
    CubePower(2000004911675504018, 4000019646726140628);
    CubeQuotient(4000019646726140628, 1999990176685178680021911421131224660, 1999990176685178680);
    CubeCorrection(2000004911675504018, 4000019646726140628, 1999990176685178680, -4911663441779);
    KnownPower(8 * ONE, 3, 2000004911675504018);
    OneMoreStep(8 * ONE, 3, Newton(-3132587465783220, 2000004911675504018), 5);
  }

  lemma LastCubeSteps()
    ensures IterateFrom(NewtonStep(8 * ONE, 3), Newton(-4911663441779, 2000000000012062239), 6)
         == Some(Newton(0, 2000000000000000000))
  {
    hide IterateFrom, NewtonStep, Iterate, Power, Div, Correct;
    CubePower(2000000000012062239, 4000000000048248956);
    CubeQuotient(4000000000048248956, 1999999999975875522000290995219382731, 1999999999975875522);
    CubeCorrection(2000000000012062239, 4000000000048248956, 1999999999975875522, -12062239);
    KnownPower(8 * ONE, 3, 2000000000012062239);
    OneMoreStep(8 * ONE, 3, Newton(-4911663441779, 2000000000012062239), 6);
    CubePower(2000000000000000000, 4000000000000000000);
    CubeQuotient(4000000000000000000, 2000000000000000000000000000000000000, 2000000000000000000);
    CubeCorrection(2000000000000000000, 4000000000000000000, 2000000000000000000, 0);
    KnownPower(8 * ONE, 3, 2000000000000000000);
    OneMoreStep(8 * ONE, 3, Newton(-12062239, 2000000000000000000), 7);
    OneMoreStep(8 * ONE, 3, Newton(0, 2000000000000000000), 8);
  }

  /** The cube root of eight is two, exactly, and the loop stops there. */
  lemma CubeRootOfEight()
    ensures Root(8 * ONE, 3) == Some(Newton(0, 2 * ONE))
  {
    RootIsRun(8 * ONE, 3, ONE);
    hide Root, IterateFrom, NewtonStep;
    FirstCubeSteps();
    SecondCubeSteps();
    ThirdCubeSteps();
    LastCubeSteps();
  }
}
