/**
 For which Decs the hundred iterations of `ApproxSqrt` (types/dec.go) are enough. Far from the root a
 step halves the distance to it, near the root a step squares it, and the theorems count how many of
 either are needed and how many there are.
 */
module SqrtRange {
  import opened Arith
  import opened Decimals
  import opened DecRoot

  // ------------------------------------------------------- one step, from both sides

  /** s is the integer square root of n. */
  ghost predicate IsRoot(n: int, s: int) { s >= 0 && s * s <= n < (s + 1) * (s + 1) }

  lemma {:induction false} RootExists(n: nat) returns (s: nat)
    ensures IsRoot(n, s)
  {
    s := 0;
    if n > 0 {
      s := RootExists(n - 1);
      if (s + 1) * (s + 1) <= n {
        s := s + 1;
        assert (s + 1) * (s + 1) == s * s + 2 * s + 1;
      }
    }
  }

  /**
   From g, at a distance e = g - s above the root, a step ends at a distance f with
   2f - 4 < e^2 / g < 2f + 2: it never falls below the root.
   */
  ghost predicate Nears(s: int, g: int, m: Newton) {
    && m.guess == g + m.delta && m.guess >= s
    && g * (2 * (m.guess - s) - 4) < (g - s) * (g - s) < g * (2 * (m.guess - s) + 2)
  }

  lemma StepSum(n: int, s: int, g: int, q: int)
    ensures g * (g + q - 2 * s) == (g - s) * (g - s) + (n - s * s) + (q * g - n)
  {
  }

  lemma BetweenMultiples(g: int, u: int, f: int, w: int)
    requires g >= 1 && -1 <= u - 2 * f <= 1 && w - g < g * u < w + 3 * g
    ensures g * (2 * f - 4) < w < g * (2 * f + 2)
  {
    MulMono(2 * f - 1, u, g);
    MulMono(u, 2 * f + 1, g);
    assert g * (2 * f - 4) == (2 * f - 1) * g - 3 * g;
    assert g * (2 * f + 2) == (2 * f + 1) * g + g;
    assert u * g == g * u;
  }

  lemma StepNears(n: int, s: int, g: int, q: int, m: Newton)
    requires IsRoot(n, s) && g >= 1 && StepsBy(n, g, q, m)
    ensures m.guess >= s
    ensures g >= s ==> Nears(s, g, m)
  {
    StepSum(n, s, g, q);
    RootGap(n, s);
    SquareNonNegative(g - s);
    hide IsRoot;
    StepWindow(g, s, g + q - 2 * s, m.guess - s, (g - s) * (g - s), n - s * s, q * g - n);
  }

  lemma SquareNonNegative(e: int)
    ensures e * e >= 0
  {
  }

  lemma StepWindow(g: int, s: int, u: int, f: int, w: int, t: int, x: int)
    requires g >= 1 && g * u == w + t + x && w >= 0 && 0 <= t <= 2 * s && -g < x < g && -1 <= u - 2 * f <= 1
    ensures f >= 0
    ensures g >= s ==> g * (2 * f - 4) < w < g * (2 * f + 2)
  {
    NotBelow(g, u, w - g);
    if g >= s {
      BetweenMultiples(g, u, f, w);
    }
  }

  lemma RootGap(n: int, s: int)
    requires IsRoot(n, s)
    ensures 0 <= n - s * s <= 2 * s
  {
    assert (s + 1) * (s + 1) == s * s + 2 * s + 1;
  }

  lemma NotBelow(g: int, u: int, w: int)
    requires g >= 1 && g * u > w >= -g
    ensures u >= 0
  {
    CancelStrict(-1, u, g);
  }

  /** Every step from the root upward succeeds and is one of those. */
  ghost predicate Approaching(s: int, step: Step) {
    forall g :: s <= g < DEC_LIMIT - 2 ==> step(g).Some? && Nears(s, g, step(g).value)
  }

  lemma SmallQuotient(n: int, s: int, g: int, q: int)
    requires IsRoot(n, s) && 1 <= g && s <= g && Abs(q * g - n) < g
    ensures q <= s + 2
  {
    assert n <= s * s + 2 * s by { assert (s + 1) * (s + 1) == s * s + 2 * s + 1; }
    MulMono(s, g, s);
    assert (s + 3) * g == s * g + 3 * g;
    CancelStrict(q, s + 3, g);
  }

  lemma NewtonApproaches(d: nat, s: int, step: Step)
    requires IsRoot(d * ONE, s) && s >= 1 && step == NewtonStep(d, 2)
    ensures Approaching(s, step)
  {
    hide Iterate, IsRoot, Nears, NearestEven, Scaled;
    forall g | s <= g < DEC_LIMIT - 2 ensures step(g).Some? && Nears(s, g, step(g).value) {
      var q := NearestEven(Scaled(d, g));
      SqrtStep(d, g);
      SmallQuotient(d * ONE, s, g, q);
      StepOfQuotient(g, q);
      StepNears(d * ONE, s, g, q, Iterate(d, 2, g).value);
      assert step(g) == Iterate(d, 2, g);
    }
  }

  lemma StepOfQuotient(g: int, q: int)
    requires g >= 1 && 0 <= q <= g + 2
    ensures var delta := Arith.Quo(q - g, 2);
            -1 <= q - g - 2 * delta <= 1 && 1 <= g + delta <= g + 1
  {
    ShrinkStops(q, g, 2);
    QuoMeans(q - g, 2);
  }

  // ---------------------------------------------------------------- getting close

  /** g doubled k times. */
  function Doubled(g: int, k: nat): int
    decreases k
  {
    if k == 0 then g else Doubled(2 * g, k - 1)
  }

  lemma {:induction false} DoubledIs(g: int, k: nat)
    ensures Doubled(g, k) == g * Pow(2, k)
    decreases k
  {
    if k > 0 {
      DoubledIs(2 * g, k - 1);
      assert 2 * g * Pow(2, k - 1) == g * (2 * Pow(2, k - 1));
    }
  }

  lemma {:induction false} DoubledTwice(g: int, k: nat)
    ensures Doubled(2 * g, k) == 2 * Doubled(g, k)
    decreases k
  {
    if k > 0 { DoubledTwice(2 * g, k - 1); }
  }

  /** 22, and from there each is twice the square of the one above. */
  function Fineness(k: nat): int {
    match k
    case 1 => 98676293512038486615523328
    case 2 => 7024111812608
    case 3 => 1874048
    case 4 => 968
    case _ => 22
  }

  /**
   At a distance e above the root s, k steps bring a guess within 2 of it. While the guess is more than
   four times the root a step halves it, but for a quarter of the root; three steps later the distance
   is a twenty-second part of the root, and then each step squares it.
   */
  ghost predicate Close(s: int, e: int, k: nat) {
    if k == 0 then e <= 2
    else if k <= 5 then Fineness(k) * (e - 4) <= s
    else if k == 6 then 20 * e <= 7 * s
    else if k == 7 then 4 * e <= 5 * s
    else 4 * e + 3 * s - 16 <= Doubled(16 * s, k - 8)
  }

  /** Roots of Decs below 2^188 and above zero. */
  ghost predicate Moderate(s: int) { 1_000_000_000 <= s <= 0x1_0000000000_0000000000_0000000000_0000000000 }

  lemma Halves(s: int, e: int, f: int)
    requires s >= 1 && e >= 0 && (s + e) * (2 * f - 4) < e * e
    ensures 2 * (f - 3) <= e - 3
  {
    var g := s + e;
    MulMono(e, g, e);
    CancelStrict(2 * f - 4, e, g);
  }

  /** From at least four times the root a step halves the guess, but for a quarter of the root and a little. */
  lemma HalvesGuess(s: int, e: int, f: int)
    requires s >= 1 && e >= 3 * s && (s + e) * (2 * f - 4) < e * e
    ensures 2 * (4 * f + 3 * s - 16) <= 4 * e + 3 * s - 16
  {
    var g := s + e;
    assert e * e == (g - 2 * s) * g + s * s;
    MulMono(4 * s, g, s);
    assert 4 * (s * s) == 4 * s * s && g * s == s * g;
    assert (4 * (g - 2 * s) + s) * g == 4 * ((g - 2 * s) * g) + s * g;
    assert 4 * (2 * f - 4) * g == 4 * (g * (2 * f - 4));
    CancelStrict(4 * (2 * f - 4), 4 * (g - 2 * s) + s, g);
  }

  /** At a distance of at most a / b of the root, a step ends at most a^2 / (2 b (a + b)) of it away, and 2. */
  lemma RatioStep(s: int, e: int, f: int, a: int, b: int)
    requires s >= 1 && e >= 0 && a > 0 && b > 0 && b * e <= a * s && (s + e) * (2 * f - 4) < e * e
    ensures b * (a + b) * (2 * f - 4) <= a * a * s
  {
    var g, u := s + e, 2 * f - 4;
    Shares(a, b, e, s);
    if u > 0 {
      BelowRatio(g, e, u, a + b, a);
      Chain(a, b, u, e, s);
    } else {
      NotPositive(a, b, u, s);
    }
  }

  lemma Shares(a: int, b: int, e: int, s: int)
    requires b * e <= a * s
    ensures (a + b) * e <= a * (s + e)
  {
    assert (a + b) * e == a * e + b * e && a * (s + e) == a * s + a * e;
  }

  lemma NotPositive(a: int, b: int, u: int, s: int)
    requires a > 0 && b > 0 && u <= 0 && s >= 0
    ensures b * (a + b) * u <= a * a * s
  {
    assert b * (a + b) > 0 && a * a > 0;
    MulMono(u, 0, b * (a + b));
    assert u * (b * (a + b)) == b * (a + b) * u;
    MulMono(0, s, a * a);
    assert s * (a * a) == a * a * s;
  }

  lemma MulLess(x: int, y: int, c: int)
    requires x < y && c > 0
    ensures x * c < y * c
  {
    MulMono(x + 1, y, c);
    assert (x + 1) * c == x * c + c;
  }

  lemma BelowRatio(g: int, e: int, u: int, c: int, a: int)
    requires g > 0 && e >= 0 && c > 0 && c * e <= a * g && g * u < e * e
    ensures c * u < a * e || e == 0
  {
    MulMono(c * e, a * g, e);
    MulLess(g * u, e * e, c);
    RatioProducts(c, e, a, g, u);
    CancelStrict(c * u, a * e, g);
  }

  lemma RatioProducts(c: int, e: int, a: int, g: int, u: int)
    ensures c * e * e == e * e * c && a * g * e == a * e * g && g * u * c == c * u * g
  {
  }

  lemma ChainProducts(a: int, b: int, u: int, e: int, s: int)
    ensures (a + b) * u * b == b * (a + b) * u && a * e * b == b * e * a && a * s * a == a * a * s
  {
  }

  lemma Chain(a: int, b: int, u: int, e: int, s: int)
    requires a > 0 && b > 0 && (a + b) * u < a * e && b * e <= a * s
    ensures b * (a + b) * u <= a * a * s
  {
    MulMono((a + b) * u, a * e, b);
    MulMono(b * e, a * s, a);
    ChainProducts(a, b, u, e, s);
  }

  lemma Squares(m: int, s: int, e: int, f: int)
    requires m >= 4 && s >= 1000 && e >= 0 && m * (e - 4) <= s && (s + e) * (2 * f - 4) < e * e
    ensures 2 * m * m * (f - 4) <= s
  {
    var h, x := f - 4, e - 4;
    if x <= 0 { Arrives16(s, e, f); }
    if h <= 0 {
      NegativeScale(m, h);
    } else {
      Remainder(s, x, h, m);
      SquaredScale(m, s, x, h);
    }
  }

  lemma NegativeScale(m: int, h: int)
    requires h <= 0
    ensures 2 * m * m * h <= 0
  {
    assert m * m >= 0;
    MulMono(h, 0, m * m);
    assert 2 * m * m * h == 2 * (h * (m * m));
  }

  lemma Arrives16(s: int, e: int, f: int)
    requires s >= 1000 && 0 <= e <= 4 && (s + e) * (2 * f - 4) < e * e
    ensures f <= 2
  {
    MulMono(e, 4, e);
    CancelStrict(2 * f - 4, 1, s + e);
  }

  lemma Remainder(s: int, x: int, h: int, m: int)
    requires m >= 4 && s >= 1000 && x > 0 && h > 0 && m * x <= s
    requires (s + x + 4) * (2 * h + 4) < (x + 4) * (x + 4)
    ensures 2 * (s * h) < x * x
  {
    MulMono(4, m, x);
    assert (s + x + 4) * (2 * h + 4) == 2 * (s * h) + 4 * s + 2 * (x * h) + 4 * x + 8 * h + 16;
    assert (x + 4) * (x + 4) == x * x + 8 * x + 16;
    assert x * h >= 0;
  }

  lemma SquaredScale(m: int, s: int, x: int, h: int)
    requires m > 0 && s > 0 && x > 0 && 2 * (s * h) < x * x && m * x <= s
    ensures 2 * m * m * h <= s
  {
    assert m * m > 0;
    MulMono(2 * (s * h), x * x, m * m);
    assert 2 * (s * h) * (m * m) == 2 * m * m * h * s;
    assert x * x * (m * m) == m * x * (m * x);
    assert m * x >= 0;
    MulMono(m * x, s, m * x);
    MulMono(m * x, s, s);
    MulCancel(2 * m * m * h, s, s);
  }

  lemma Arrives(s: int, e: int, f: int)
    requires s >= 1000 && e >= 0 && e * e <= s && (s + e) * (2 * f - 4) < e * e
    ensures f <= 2
  {
    CancelStrict(2 * f - 4, 1, s + e);
  }

  lemma FineEnough(s: int, e: int)
    requires Moderate(s) && e >= 0 && Fineness(1) * (e - 4) <= s
    ensures e * e <= s
  {
    if e <= 4 {
      MulMono(e, 4, e);
    } else {
      var x := e - 4;
      assert x <= 0x100000000000000000000000;
      MulMono(e, 5 * x, e);
      MulMono(e, 5 * x, 5 * x);
      assert 5 * x * (5 * x) == 25 * x * x;
      MulMono(25 * x, Fineness(1), x);
    }
  }

  lemma CloseStep(s: int, g: int, m: Newton, k: nat)
    requires Moderate(s) && g >= s && Nears(s, g, m) && Close(s, g - s, k)
    ensures Close(s, m.guess - s, if k == 0 then 0 else k - 1)
  {
    var e, f := g - s, m.guess - s;
    assert (s + e) * (2 * f - 4) < e * e;
    hide Nears;
    if k == 0 {
      SmallSquare(e);
      Arrives(s, e, f);
    } else if k == 1 {
      FineEnough(s, e);
      Arrives(s, e, f);
    } else if k <= 5 {
      Squares(Fineness(k), s, e, f);
    } else if k <= 8 {
      CloseRatio(s, e, f, k);
    } else {
      CloseHalves(s, e, f, k);
    }
  }

  lemma CloseRatio(s: int, e: int, f: int, k: nat)
    requires Moderate(s) && e >= 0 && 6 <= k <= 8 && (s + e) * (2 * f - 4) < e * e && Close(s, e, k)
    ensures Close(s, f, k - 1)
  {
    var a, b := if k == 6 then 7 else if k == 7 then 5 else 3251, if k == 6 then 20 else if k == 7 then 4 else 1000;
    assert b * e <= a * s;
    RatioStep(s, e, f, a, b);
    assert b * (a + b) == if k == 6 then 540 else if k == 7 then 36 else 4251000;
    assert a * a == if k == 6 then 49 else if k == 7 then 25 else 10569001;
  }

  lemma CloseHalves(s: int, e: int, f: int, k: nat)
    requires Moderate(s) && e >= 0 && k > 8 && (s + e) * (2 * f - 4) < e * e && Close(s, e, k)
    ensures Close(s, f, k - 1)
  {
    DoubledTwice(16 * s, k - 9);
    if e >= 3 * s {
      HalvesGuess(s, e, f);
    } else {
      Halves(s, e, f);
      DoubledAtLeast(16 * s, k - 9);
    }
  }

  lemma {:induction false} DoubledAtLeast(g: int, k: nat)
    requires g >= 0
    ensures Doubled(g, k) >= g
    decreases k
  {
    if k > 0 { DoubledAtLeast(2 * g, k - 1); }
  }

  lemma StaysInRange(s: int, g: int, m: Newton)
    requires Moderate(s) && s <= g < DEC_LIMIT - 2 && Nears(s, g, m)
    ensures s <= m.guess < DEC_LIMIT - 2
  {
    Halves(s, g - s, m.guess - s);
  }

  /** A step from within 2 of the root stops the loop or hits the root, from where the next one stops it. */
  lemma LastSteps(s: int, g: int, m: Newton)
    requires Moderate(s) && s <= g <= s + 2 && Nears(s, g, m)
    ensures s <= m.guess <= s + 2
    ensures Abs(m.delta) <= 1 || m.guess == s
    ensures g == s ==> Abs(m.delta) <= 1
  {
    var e, f := g - s, m.guess - s;
    assert (s + e) * (2 * f - 4) < e * e && m.guess == g + m.delta && f >= 0;
    hide Nears;
    SmallSquare(e);
    Arrives(s, e, f);
    if e == 0 { CancelStrict(2 * f - 4, 0, s); }
  }

  lemma SmallSquare(e: int)
    requires 0 <= e <= 2
    ensures e * e <= 4 && (e == 0 ==> e * e == 0)
  {
  }

  ghost predicate Settled(r: Option<Newton>) { r.Some? && Abs(r.value.delta) <= 1 }

  lemma TailSettles(s: int, step: Step, n: Newton, iter: nat)
    requires Moderate(s) && Approaching(s, step)
    requires s <= n.guess <= s + 2 && iter + 2 <= MAX_ITERATIONS
    ensures Settled(IterateFrom(step, n, iter))
  {
    hide Nears;
    if Abs(n.delta) > 1 {
      var a := step(n.guess).value;
      LastSteps(s, n.guess, a);
      assert IterateFrom(step, n, iter) == IterateFrom(step, a, iter + 1);
      if Abs(a.delta) > 1 {
        var b := step(a.guess).value;
        LastSteps(s, a.guess, b);
        assert IterateFrom(step, a, iter + 1) == IterateFrom(step, b, iter + 2);
      }
    }
  }

  /** What the loop returns is not below the root, and stopped on a small step or within 2 of the root. */
  ghost predicate Good(s: int, r: Option<Newton>) {
    r.Some? && r.value.guess >= s && (Abs(r.value.delta) <= 1 || r.value.guess <= s + 2)
  }

  lemma {:induction false} RunArrives(s: int, step: Step, n: Newton, iter: nat, k: nat)
    requires Moderate(s) && Approaching(s, step)
    requires s <= n.guess < DEC_LIMIT - 2 && Close(s, n.guess - s, k) && iter + k <= MAX_ITERATIONS
    ensures Good(s, IterateFrom(step, n, iter))
    ensures iter + k + 2 <= MAX_ITERATIONS ==> Settled(IterateFrom(step, n, iter))
    decreases MAX_ITERATIONS - iter
  {
    hide Nears, Moderate;
    if Abs(n.delta) > 1 && iter < MAX_ITERATIONS {
      var m := step(n.guess).value;
      CloseStep(s, n.guess, m, k);
      StaysInRange(s, n.guess, m);
      assert IterateFrom(step, n, iter) == IterateFrom(step, m, iter + 1);
      RunArrives(s, step, m, iter + 1, if k == 0 then 0 else k - 1);
      if k == 0 && iter + 2 <= MAX_ITERATIONS { TailSettles(s, step, n, iter); }
    }
  }

  // ------------------------------------------------------------------- the start

  /** The first step goes from one to the mean of one and d, exactly. */
  lemma FirstStep(d: int)
    requires ONE < d < DEC_LIMIT
    ensures var m := Iterate(d, 2, ONE);
            m.Some? && d - 1 <= 2 * m.value.guess - ONE <= d && m.value.delta == m.value.guess - ONE
  {
    var q := NearestEven(Scaled(d, ONE));
    assert q == d by {
      assert Scaled(d, ONE) == d * ONE;
      NearestEvenExact(d);
    }
    SqrtStep(d, ONE);
    hide Iterate, NearestEven, Scaled;
  }

  lemma RootOfLarge(d: int, s: int)
    requires IsRoot(d * ONE, s) && d >= ONE
    ensures s >= ONE
  {
    if s < ONE {
      MulMono(s + 1, ONE, s + 1);
      MulMono(s + 1, ONE, ONE);
      MulMono(ONE, d, ONE);
    }
  }

  lemma RootOfSmall(d: int, s: int)
    requires IsRoot(d * ONE, s) && 1 <= d <= ONE
    ensures 1_000_000_000 <= s <= ONE
  {
    if s < 1_000_000_000 {
      MulMono(s + 1, 1_000_000_000, s + 1);
      MulMono(s + 1, 1_000_000_000, 1_000_000_000);
      assert false;
    }
    if s > ONE {
      MulMono(ONE + 1, s, s);
      MulMono(ONE + 1, s, ONE + 1);
      assert false;
    }
  }

  lemma RootBelow(n: int, s: int, b: int)
    requires IsRoot(n, s) && n < b * b && b >= 0
    ensures s < b
  {
    if s >= b {
      MulMono(b, s, b);
      MulMono(b, s, s);
    }
  }

  /** For d below b^2 the first guess, the mean of one and d, is at most half of b times the root, and a little. */
  lemma FirstDistance(d: int, s: int, b: int, p: int)
    requires p >= 100 && b >= 8 && IsRoot(d * p, s) && s >= p && d * p < b * p * (b * p)
    ensures 2 * d + 2 * p <= 2 * (b * s) + s
  {
    assert b * p >= 0;
    RootBelow(d * p, s, b * p);
    RootGap(d * p, s);
    hide IsRoot;
    var n, q := d * p, s * s;
    if s >= 3 * p {
      MulMono(s + 1, b * p, s);
      NextSquare(s, b, p);
      FewTimes(d, b * s, p, s);
    } else {
      MulMono(s, 3 * p, s);
      Triple(s, p);
      FewTimes(d, 3 * s, p, 2 * s);
      MulMono(8, b, s);
    }
  }

  lemma NextSquare(s: int, b: int, p: int)
    ensures (s + 1) * s == s * s + s && b * p * s == b * s * p
  {
  }

  lemma Triple(s: int, p: int)
    ensures 3 * p * s == 3 * s * p
  {
  }

  lemma FewTimes(d: int, x: int, p: int, r: int)
    requires p >= 100 && r >= 0 && d * p <= x * p + r
    ensures 100 * d <= 100 * x + r
  {
    if d > x {
      MulMono(100, p, d - x);
      assert p * (d - x) == d * p - x * p;
    }
  }

  lemma PowSquared(h: nat)
    ensures Pow(2, 2 * h) == Pow(2, h) * Pow(2, h) && Pow(2, h) >= 1
  {
    PowAdds(2, h, h);
    PowPositive(2, h);
  }

  /** Where the loop is when it has made its first step, or before it when it starts above the root. */
  lemma StartsClose(d: int, s: int, h: nat, g: int)
    requires ONE < d < Pow(2, 2 * h + 6) * ONE && IsRoot(d * ONE, s) && 2 * g - ONE <= d
    ensures s >= ONE && Close(s, g - s, h + 8)
  {
    hide Pow, IsRoot;
    PowSquared(h + 3);
    RootOfLarge(d, s);
    SquaredBound(d, Pow(2, h + 3));
    assert Pow(2, h + 3) >= 8 by { AtLeastEight(h); }
    FirstDistance(d, s, Pow(2, h + 3), ONE);
    TwiceDoubled(s, h);
  }

  lemma AtLeastEight(h: nat)
    ensures Pow(2, h + 3) >= 8
  {
    PowAdds(2, h, 3);
    PowPositive(2, h);
    assert Pow(2, 3) == 8;
  }

  lemma SquaredBound(d: int, b: int)
    requires d < b * b * ONE
    ensures d * ONE < b * ONE * (b * ONE)
  {
    MulStrict(d, b * b * ONE);
    assert b * b * ONE * ONE == b * ONE * (b * ONE);
  }

  lemma TwiceDoubled(s: int, h: nat)
    ensures 2 * (Pow(2, h + 3) * s) == Doubled(16 * s, h)
  {
    DoubledIs(16 * s, h);
    PowAdds(2, h, 3);
    assert Pow(2, 3) == 8;
    assert 2 * (8 * Pow(2, h) * s) == 16 * s * Pow(2, h);
  }

  lemma MulStrict(x: int, y: int)
    requires x < y
    ensures x * ONE < y * ONE
  {
  }

  lemma StartsCloseBelowOne(s: int)
    requires 1_000_000_000 <= s <= ONE
    ensures Close(s, ONE - s, 36)
  {
    assert Pow(2, 10) == 1024 && Pow(2, 8) == 256;
    PowAdds(2, 10, 10);
    PowAdds(2, 20, 8);
    DoubledIs(16 * s, 28);
    assert Doubled(16 * s, 28) == s * 0x100000000;
  }

  // -------------------------------------------------------------- the theorems

  lemma ModerateRoot(d: int, s: int, b: int)
    requires b == Pow(2, 94) && 1 <= d && d * ONE < b * ONE * (b * ONE) && IsRoot(d * ONE, s)
    ensures Moderate(s)
  {
    hide Pow;
    PowPositive(2, 94);
    assert b * ONE >= 0;
    RootBelow(d * ONE, s, b * ONE);
    TwoToThe94();
    if d <= ONE { RootOfSmall(d, s); } else { RootOfLarge(d, s); }
  }

  lemma TwoToThe93()
    ensures Pow(2, 93) == 0x2000_0000000000_0000000000
  {
    assert Pow(2, 10) == 1024 && Pow(2, 3) == 8;
    PowAdds(2, 10, 10);
    PowAdds(2, 20, 10);
    PowAdds(2, 30, 30);
    PowAdds(2, 60, 30);
    PowAdds(2, 90, 3);
  }

  lemma TwoToThe94()
    ensures Pow(2, 94) == 0x4000_0000000000_0000000000
  {
    TwoToThe93();
    hide Pow;
    PowAdds(2, 1, 93);
    assert Pow(2, 1) == 2 by { PowOne(); }
  }

  lemma PowOne()
    ensures Pow(2, 1) == 2
  {
  }

  /** The run of `ApproxSqrt` on d, which is not one of the shortcuts, and the integer root it aims at. */
  lemma SqrtRun(d: int, h: nat) returns (s: int)
    requires 1 <= d < Pow(2, 2 * h + 6) * ONE && d != ONE && 28 <= h <= 91
    ensures IsRoot(d * ONE, s) && Good(s, Root(d, 2))
    ensures h <= 89 ==> Settled(Root(d, 2))
  {
    s := RootExists(d * ONE);
    hide Pow, IsRoot, Iterate;
    var b, step := Pow(2, 94), NewtonStep(d, 2);
    BelowBound(d, h, b);
    ModerateRoot(d, s, b);
    NewtonApproaches(d, s, step);
    if d < ONE {
      RootOfSmall(d, s);
      StartsCloseBelowOne(s);
      RunArrives(s, step, Newton(ONE, ONE), 0, 36);
    } else {
      InDecRange(d, b);
      FirstStep(d);
      var m := Iterate(d, 2, ONE).value;
      StartsClose(d, s, h, m.guess);
      StartsAbove(d, s, m);
      RootAfterFirst(d, m);
      RunArrives(s, step, m, 1, h + 8);
    }
  }

  lemma BelowBound(d: int, h: nat, b: int)
    requires 1 <= d < Pow(2, 2 * h + 6) * ONE && h <= 91 && b == Pow(2, 94)
    ensures d * ONE < b * ONE * (b * ONE) && d < b * b * ONE
  {
    hide Pow;
    PowSquared(94);
    PowAdds(2, 2 * h + 6, 182 - 2 * h);
    PowPositive(2, 2 * h + 6);
    PowPositive(2, 182 - 2 * h);
    MulMono(1, Pow(2, 182 - 2 * h), Pow(2, 2 * h + 6));
    MulMono(Pow(2, 2 * h + 6), b * b, ONE);
    SquaredBound(d, b);
  }

  lemma InDecRange(d: int, b: int)
    requires b == Pow(2, 94) && d < b * b * ONE
    ensures d < DEC_LIMIT
  {
    hide Pow;
    TwoToThe94();
    OneIsPowerOfTen();
  }

  lemma StartsAbove(d: int, s: int, m: Newton)
    requires ONE < d < DEC_LIMIT && IsRoot(d * ONE, s) && Iterate(d, 2, ONE) == Some(m)
    requires 2 * m.guess - ONE <= d
    ensures s <= m.guess < DEC_LIMIT - 2
  {
    hide Iterate;
    NewtonStepsBy(d, ONE, m);
    var q :| StepsBy(d * ONE, ONE, q, m);
    StepNears(d * ONE, s, ONE, q, m);
  }

  /**
   Below 2^184 the loop always stops on a small step: no error, and |r^2 - d * ONE| <= 2r + 2.
   */
  lemma SqrtConverges(d: int)
    requires 0 <= d < Pow(2, 184) * ONE
    ensures Settled(Root(d, 2)) && Certified(d * ONE, Root(d, 2).value.guess)
  {
    hide Pow, Certified;
    if d == 0 || d == ONE {
      ShortcutCertified(d);
    } else {
      var s := SqrtRun(d, 89);
      SettledCertified(d, Root(d, 2).value);
    }
  }

  lemma ShortcutCertified(d: int)
    requires d == 0 || d == ONE
    ensures Certified(d * ONE, d)
  {
  }

  lemma SettledCertified(d: nat, r: Newton)
    requires d != 0 && d != ONE && Root(d, 2) == Some(r) && Abs(r.delta) <= 1
    ensures Certified(d * ONE, r.guess)
  {
    hide Iterate, Certified, StepsBy;
    var step := NewtonStep(d, 2);
    forall g | 1 <= g < DEC_LIMIT && step(g).Some?
      ensures step(g).value.guess < DEC_LIMIT && exists q :: StepsBy(d * ONE, g, q, step(g).value)
    {
      IterateInRange(d, 2, g);
      NewtonStepsBy(d, g, step(g).value);
    }
    RunCertifies(d * ONE, step, Newton(ONE, ONE), 0, r);
  }

  /** The bound that the root is known by when the loop may have run out of iterations. */
  ghost predicate Accurate(n: int, r: int) { r >= 0 && Abs(r * r - n) <= 6 * r + 7 }

  lemma GoodIsAccurate(n: int, s: int, r: int)
    requires IsRoot(n, s) && s <= r <= s + 2
    ensures Accurate(n, r)
  {
    RootGap(n, s);
    MulMono(s, r, s);
    MulMono(s, r, r);
    MulMono(r, s + 2, r);
    MulMono(r, s + 2, s + 2);
    assert (s + 2) * (s + 2) == s * s + 4 * s + 4;
  }

  /**
   Below 2^188 the returned root is right to about three units, |r^2 - d * ONE| <= 6r + 7, whether the
   loop stopped on a small step or ran out of iterations.
   */
  lemma SqrtAccurate(d: int)
    requires 0 <= d < Pow(2, 188) * ONE
    ensures ApproxRoot(d, 2).Some? && Accurate(d * ONE, ApproxRoot(d, 2).value)
  {
    hide Pow, Accurate;
    if d == 0 || d == ONE {
      ShortcutAccurate(d);
    } else {
      var s := SqrtRun(d, 91);
      var r := Root(d, 2).value;
      hide Root;
      if Abs(r.delta) <= 1 {
        SettledCertified(d, r);
        CertifiedIsAccurate(d * ONE, s, r.guess);
      } else {
        GoodIsAccurate(d * ONE, s, r.guess);
      }
    }
  }

  lemma ShortcutAccurate(d: int)
    requires d == 0 || d == ONE
    ensures Accurate(d * ONE, d)
  {
  }

  lemma CertifiedIsAccurate(n: int, s: int, r: int)
    requires IsRoot(n, s) && r >= s && Certified(n, r)
    ensures Accurate(n, r)
  {
  }

  lemma AccurateInRange(n: int, r: int, b: int)
    requires Accurate(n, r) && b >= 1 && n < b * b
    ensures r < b + 10
  {
    assert (b + 10) * r == b * r + 10 * r;
    if r >= b + 10 {
      MulMono(b + 10, r, r);
      MulMono(b, r, b);
    }
  }

  lemma RootFits(d: nat, r: int)
    requires d < Pow(2, 188) * ONE && Accurate(d * ONE, r)
    ensures r < DEC_LIMIT
  {
    hide Pow, Accurate;
    var b := Pow(2, 94);
    TwoToThe94();
    if d >= 1 { BelowBound(d, 91, b); }
    AccurateInRange(d * ONE, r, b * ONE);
  }

  /**
   `ApproxSqrt`, with the last step of its loop, for either sign. Below 2^188 it returns a root that is
   right to about three units; below 2^184 its last step is small; and whenever its last step is small
   the root is right to about one unit: the exact one lies within r - 2 and r + 2.
   */
  method ApproxSqrtDec(d: int) returns (r: Option<int>, delta: int)
    ensures r.Some? && Abs(delta) <= 1 ==> Abs(r.value * r.value - Abs(d) * ONE) <= 2 * Abs(r.value) + 2
    ensures Abs(d) < Pow(2, 188) * ONE ==> r.Some? && Accurate(Abs(d) * ONE, Abs(r.value))
    ensures Abs(d) < Pow(2, 184) * ONE ==> r.Some? && Abs(delta) <= 1
    ensures r.Some? ==> (d < 0 <==> r.value < 0)
    ensures r == ApproxRoot(d, 2)
  {
    var a := Abs(d);
    hide Pow, Root, Accurate, Certified;
    assert a < Pow(2, 184) * ONE ==> a < Pow(2, 188) * ONE by { SmallerBound(); }
    if a < Pow(2, 188) * ONE {
      SqrtAccurate(a);
      RootFits(a, Root(a, 2).value.guess);
      BoundInRange(a);
    }
    if a < Pow(2, 184) * ONE { SqrtConverges(a); }
    if d < 0 && Checked(-d).None? { return None, 0; }
    var root := PositiveRootDec(a, 2);
    if root.None? { return None, 0; }
    var g := root.value.guess;
    assert g >= 0 by { ZeroRoot(); }
    if Abs(root.value.delta) <= 1 {
      AnyCertified(a, root.value);
      CertifiedMeans(a * ONE, g);
    }
    if d < 0 {
      if Checked(-g).None? { return None, 0; }
      NegatedSquare(g);
      return Some(-g), root.value.delta;
    }
    return Some(g), root.value.delta;
  }

  lemma CertifiedMeans(n: int, g: int)
    ensures Certified(n, g) ==> Abs(g * g - n) <= 2 * g + 2
  {
  }

  lemma NegatedSquare(g: int)
    ensures -g * -g == g * g
  {
  }

  lemma ZeroRoot()
    ensures Root(0, 2) == Some(Newton(0, 0))
  {
  }

  lemma AnyCertified(d: nat, r: Newton)
    requires Root(d, 2) == Some(r) && Abs(r.delta) <= 1
    ensures Certified(d * ONE, r.guess)
  {
    hide Certified, IterateFrom;
    if d == 0 || d == ONE {
      ShortcutCertified(d);
    } else {
      SettledCertified(d, r);
    }
  }

  lemma SmallerBound()
    ensures Pow(2, 184) <= Pow(2, 188)
  {
    hide Pow;
    PowAdds(2, 184, 4);
    PowPositive(2, 184);
    PowPositive(2, 4);
    MulMono(1, Pow(2, 4), Pow(2, 184));
  }

  lemma BoundInRange(d: int)
    requires d < Pow(2, 188) * ONE
    ensures d < DEC_LIMIT
  {
    hide Pow;
    PowSquared(94);
    InDecRange(d, Pow(2, 94));
  }

  // ------------------------------------------------ where 100 iterations do not suffice

  /** Numerator and denominator of a part of the root: a distance of one is, a step later, at least the one above. */
  function Part(k: nat): (int, int) {
    match k
    case 0 => (105, 10000000000000000000000000000000000000000000)
    case 1 => (46, 10000000000000000000000)
    case 2 => (96, 1000000000000)
    case 3 => (139, 10000000)
    case 4 => (53, 10000)
    case 5 => (109, 1000)
    case _ => (59, 100)
  }

  /** At a distance e above the root s, a guess will still be far from it after k steps. */
  ghost predicate Apart(s: int, e: int, k: nat) {
    if k <= 6 then Part(k).1 * e >= Part(k).0 * s else Doubled(2828 * s, k - 7) <= 1000 * (s + e + 1)
  }

  /** At least the square root of two times 2^94, in raw units. */
  ghost predicate Huge(s: int) { s >= 28000000000000000000000000000000000000000000000 }

  lemma AtMostHalves(s: int, e: int, f: int)
    requires s >= 1 && e >= 0 && e * e < (s + e) * (2 * f + 2)
    ensures s + e + 1 <= 2 * (s + f + 1)
  {
    var g := s + e;
    assert e * e == (g - 2 * s) * g + s * s;
    assert s * s >= 0;
    CancelStrict(g - 2 * s, 2 * f + 2, g);
  }

  /** At a distance of at least a / b of the root, a step ends at least a^2 / (2 b (a + b)) of it away, less 1. */
  lemma RatioApart(s: int, e: int, f: int, a: int, b: int)
    requires s >= 1 && e >= 1 && a > 0 && b > 0 && b * e >= a * s && e * e < (s + e) * (2 * f + 2)
    ensures b * (a + b) * (2 * f + 2) >= a * a * s
  {
    var g, u := s + e, 2 * f + 2;
    assert (a + b) * e == a * e + b * e && a * g == a * s + a * e;
    AboveRatio(g, e, u, a + b, a);
    ChainUp(a, b, u, e, s);
  }

  lemma AboveRatio(g: int, e: int, u: int, c: int, a: int)
    requires g > 0 && e > 0 && c > 0 && c * e >= a * g && e * e < g * u
    ensures a * e < c * u
  {
    MulMono(a * g, c * e, e);
    MulLess(e * e, g * u, c);
    RatioProducts(c, e, a, g, u);
    CancelStrict(a * e, c * u, g);
  }

  lemma ChainUp(a: int, b: int, u: int, e: int, s: int)
    requires a > 0 && b > 0 && a * e < (a + b) * u && b * e >= a * s
    ensures b * (a + b) * u >= a * a * s
  {
    MulMono(a * e, (a + b) * u, b);
    MulMono(a * s, b * e, a);
    ChainProducts(a, b, u, e, s);
  }

  /** One step in the near range, where the parts of the root are square after square. */
  lemma ApartRatio(s: int, e: int, f: int, k: nat)
    requires Huge(s) && e >= 1 && k <= 5 && e * e < (s + e) * (2 * f + 2) && Apart(s, e, k + 1)
    ensures Apart(s, f, k)
  {
    var a, b := Part(k + 1).0, Part(k + 1).1;
    RatioApart(s, e, f, a, b);
    var x, y := b * (a + b), a * a;
    assert x * (2 * f + 2) >= y * s;
    PartShrinks(k);
    Scale(x, y, s, f, Part(k).0, Part(k).1);
  }

  /** The square of a part, halved, leaves room for the next part and for the units that rounding costs. */
  lemma PartShrinks(k: nat)
    requires k <= 5
    ensures var a, b, c, d := Part(k + 1).0, Part(k + 1).1, Part(k).0, Part(k).1;
            var x, y := b * (a + b), a * a;
            x > 0 && c > 0 && d > 0 && 2 * c * x * 10000 <= (y * d) * 9999
            && 2 * x * 10000 <= y * 28000000000000000000000000000000000000000000000
  {
  }

  lemma Scale(x: int, y: int, s: int, f: int, c: int, d: int)
    requires x > 0 && d > 0 && y > 0 && Huge(s) && x * (2 * f + 2) >= y * s
    requires 2 * c * x * 10000 <= (y * d) * 9999
    requires 2 * x * 10000 <= y * 28000000000000000000000000000000000000000000000
    ensures d * f >= c * s
  {
    // 2 x f >= y s - 2 x >= y s (1 - 10^-4) >= 2 c x s / d
    MulMono(28000000000000000000000000000000000000000000000, s, y);
    var t := 10000;
    assert y * s == s * y;
    assert 2 * x * f * t >= (y * s) * (t - 1) by {
      assert x * (2 * f + 2) == 2 * x * f + 2 * x;
    }
    MulMono(y * s * (t - 1), 2 * x * f * t, d);
    assert y * s * (t - 1) * d == y * d * (t - 1) * s;
    MulMono(2 * c * x * t, y * d * (t - 1), s);
    assert 2 * c * x * t * s == c * s * (2 * x * t) && 2 * x * f * t * d == d * f * (2 * x * t);
    MulCancel(c * s, d * f, 2 * x * t);
  }

  lemma ApartStep(s: int, g: int, m: Newton, k: nat)
    requires Huge(s) && g >= s && Nears(s, g, m) && Apart(s, g - s, k + 1)
    ensures Apart(s, m.guess - s, k)
    ensures m.delta <= -2
  {
    var e, f := g - s, m.guess - s;
    assert (s + e) * (2 * f - 4) < e * e < (s + e) * (2 * f + 2) && m.guess == g + m.delta;
    hide Nears;
    ApartMeans(s, e, k + 1);
    Halves(s, e, f);
    if k + 1 > 7 {
      AtMostHalves(s, e, f);
      DoubledTwice(2828 * s, k - 7);
    } else if k + 1 == 7 {
      RatioApart(s, e, f, 1827, 1000);
    } else {
      ApartRatio(s, e, f, k);
    }
  }

  lemma ApartMeans(s: int, e: int, k: nat)
    requires Huge(s) && e >= 0 && k >= 1 && Apart(s, e, k)
    ensures e >= 7
    ensures k == 7 ==> 1000 * e >= 1827 * s
  {
    if k >= 7 { DoubledAtLeast(2828 * s, k - 7); }
  }

  lemma HugeInRange(s: int, g: int, m: Newton)
    requires Huge(s) && s <= g < DEC_LIMIT - 2 && Nears(s, g, m) && m.delta <= -2
    ensures s <= m.guess < DEC_LIMIT - 2
  {
  }

  lemma {:induction false} RunStaysApart(s: int, step: Step, n: Newton, iter: nat, k: nat)
    requires Huge(s) && Approaching(s, step)
    requires s <= n.guess < DEC_LIMIT - 2 && Abs(n.delta) > 1
    requires Apart(s, n.guess - s, k) && iter + k == MAX_ITERATIONS
    ensures var r := IterateFrom(step, n, iter); r.Some? && r.value.guess >= s && Apart(s, r.value.guess - s, 0)
    decreases k
  {
    hide Nears, Huge, Apart;
    if k > 0 {
      var m := step(n.guess).value;
      ApartStep(s, n.guess, m, k - 1);
      HugeInRange(s, n.guess, m);
      assert IterateFrom(step, n, iter) == IterateFrom(step, m, iter + 1);
      RunStaysApart(s, step, m, iter + 1, k - 1);
    }
  }

  lemma RootAbove(n: int, s: int, b: int)
    requires IsRoot(n, s) && n >= b * b && b >= 0
    ensures s >= b
  {
    if s < b {
      MulMono(s + 1, b, s + 1);
      MulMono(s + 1, b, b);
    }
  }

  /** From 2^189 on the first guess is more than the square root of two times 2^93 times the root. */
  lemma StartsApart(d: int, s: int, g: int)
    requires Pow(2, 189) * ONE <= d && IsRoot(d * ONE, s) && d - 1 <= 2 * g - ONE
    ensures Huge(s) && Apart(s, g - s, 99)
  {
    hide Pow, IsRoot;
    var b := Pow(2, 94);
    TwoToThe94();
    assert Pow(2, 189) == 2 * (b * b) by { PowSquared(94); PowAdds(2, 1, 188); PowOne(); }
    LargeRoot(d, s, b);
    LargeQuotient(d, s, b);
    DoubledIs(2828 * s, 92);
    assert b == 4 * Pow(2, 92) by { PowAdds(2, 2, 92); PowTwo(); }
    assert 2828 * s * Pow(2, 92) == 707 * (b * s);
  }

  /** 1414 thousandths are less than the square root of two. */
  lemma LargeRoot(d: int, s: int, b: int)
    requires b == 0x4000_0000000000_0000000000 && 2 * (b * b) * ONE <= d && IsRoot(d * ONE, s)
    ensures Huge(s)
  {
    var c := 1414 * b * 1_000_000_000_000_000;
    assert c * c <= d * ONE;
    RootAbove(d * ONE, s, c);
  }

  lemma PowTwo()
    ensures Pow(2, 2) == 4
  {
  }

  lemma LargeQuotient(d: int, s: int, b: int)
    requires b >= 1 && 2 * (b * b) * ONE <= d && IsRoot(d * ONE, s)
    ensures 1414 * (b * s) <= 1000 * d
  {
    var x, y := 1000 * d, 1414 * (b * s);
    assert d >= 0 && s >= 0 by { assert b * b >= 0; }
    assert b * s >= 0;
    RootGap(d * ONE, s);
    MulMono(s * s, d * ONE, b * b);
    MulMono(2 * (b * b) * ONE, d, d);
    SquaresCompare(b, s, d);
    if y > x { SquareMono(x, y); }
  }

  lemma SquaresCompare(b: int, s: int, d: int)
    ensures 1414 * (b * s) * (1414 * (b * s)) == 1999396 * (s * s * (b * b))
    ensures 1000 * d * (1000 * d) == 1000000 * (d * d) && 2 * (b * b) * ONE * d == 2 * (d * ONE * (b * b))
  {
    assert b * s * (b * s) == s * s * (b * b);
    assert 1414 * (b * s) * (1414 * (b * s)) == 1999396 * (b * s * (b * s));
  }

  lemma SquareMono(x: int, y: int)
    requires 0 <= x < y
    ensures x * x < y * y
  {
    MulMono(x, y, x);
    assert y * y == x * y + (y - x) * y;
    assert (y - x) * y > 0;
  }

  lemma ApartFar(s: int, e: int)
    requires Huge(s) && Apart(s, e, 0)
    ensures e >= 65538
  {
  }

  /** A guess that is still apart is more than 65536 units per unit of its size too large. */
  lemma FarIsInaccurate(n: int, s: int, e: int)
    requires IsRoot(n, s) && e >= 65538
    ensures (s + e) * (s + e) - n >= 65536 * (s + e)
  {
    var r := s + e;
    RootGap(n, s);
    assert r * r == s * s + 2 * (s * e) + e * e;
    assert (e - 1) * r == s * e + e * e - s - e;
    MulMono(2, e, s);
    MulMono(65536, e - 1, r);
  }

  lemma FarIsNotAccurate(n: int, r: int)
    requires r > 0 && r * r - n >= 65536 * r
    ensures !Accurate(n, r)
  {
  }

  /**
   "No error means an accurate root" is false of the code: for every in-range d from 2^189 on the
   iterations run out, no error is reported, and r^2 exceeds d by at least 65536 r.
   */
  lemma HugeSqrtNotConverged(d: int)
    requires Pow(2, 189) * ONE <= d < DEC_LIMIT
    ensures ApproxRoot(d, 2).Some?
    ensures var r := ApproxRoot(d, 2).value; r > 0 && r * r - d * ONE >= 65536 * r && !Accurate(d * ONE, r)
  {
    hide Pow, IsRoot, Apart, Huge, Root, Accurate;
    var s := HugeRun(d);
    var e := Root(d, 2).value.guess - s;
    HugePositive(s);
    ApartFar(s, e);
    FarIsInaccurate(d * ONE, s, e);
    FarIsNotAccurate(d * ONE, s + e);
  }

  lemma HugeRun(d: int) returns (s: int)
    requires Pow(2, 189) * ONE <= d < DEC_LIMIT
    ensures IsRoot(d * ONE, s) && Huge(s) && d > 0
    ensures var r := Root(d, 2); r.Some? && r.value.guess >= s && Apart(s, r.value.guess - s, 0)
  {
    hide Pow, IsRoot, Iterate, Apart, Huge, Approaching, IterateFrom, Root;
    LargerThanOne(d);
    s := RootExists(d * ONE);
    FirstStep(d);
    var m := Iterate(d, 2, ONE).value;
    StartsApart(d, s, m.guess);
    StartsAbove(d, s, m);
    HugePositive(s);
    NewtonApproaches(d, s, NewtonStep(d, 2));
    RootAfterFirst(d, m);
    RunStaysApart(s, NewtonStep(d, 2), m, 1, 99);
  }

  lemma RootAfterFirst(d: int, m: Newton)
    requires ONE < d && Iterate(d, 2, ONE) == Some(m)
    ensures Root(d, 2) == IterateFrom(NewtonStep(d, 2), m, 1)
  {
    hide Iterate;
    var step := NewtonStep(d, 2);
    assert step(ONE) == Some(m);
  }

  lemma HugePositive(s: int)
    requires Huge(s)
    ensures s >= 1
  {
  }

  lemma LargerThanOne(d: int)
    requires d >= Pow(2, 189) * ONE
    ensures d > 8 * ONE
  {
    hide Pow;
    PowSquared(94);
    PowAdds(2, 1, 188);
    PowOne();
    TwoToThe94();
  }
}
