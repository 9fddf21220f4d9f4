/**
 `Dec.ApproxRoot` and `Dec.ApproxSqrt` (types/dec.go): Newton's method on rounded
 arithmetic, stopped by a small step or after 100 iterations. The deferred recover
 turns every panic into an error, so `None` here is a returned error.
 */
module DecRoot {
  import opened Arith
  import opened Decimals
  import opened DecPower

  const MAX_ITERATIONS: nat := 100

  datatype Newton = Newton(delta: int, guess: int)

  /** The rest of an iteration, once prev = guess^(root-1) is known. */
  function Correct(d: int, root: nat, guess: int, prev: int): Option<Newton>
    requires root >= 2
  {
    var quo :- Div(d, if prev == 0 then 1 else prev);
    var diff :- Sub(quo, guess);
    var delta := Arith.Quo(diff, root);
    var next :- Add(guess, delta);
    Some(Newton(delta, next))
  }

  /** One iteration: delta = (d / guess^(root-1) - guess) / root, then guess + delta. */
  function Iterate(d: int, root: nat, guess: int): Option<Newton>
    requires root >= 2
  {
    var prev :- Power(guess, root - 1);
    Correct(d, root, guess, prev)
  }

  type Step = int -> Option<Newton>

  function NewtonStep(d: int, root: nat): Step
    requires root >= 2
  {
    g => Iterate(d, root, g)
  }

  /** The loop, for any way to make a step. */
  function IterateFrom(step: Step, n: Newton, iter: nat): Option<Newton>
    requires iter <= MAX_ITERATIONS
    decreases MAX_ITERATIONS - iter
  {
    if Abs(n.delta) <= 1 || iter == MAX_ITERATIONS then Some(n)
    else
      var s :- step(n.guess);
      IterateFrom(step, s, iter + 1)
  }

  /** The last guess with the last delta; the shortcuts return with delta 0. */
  function Root(d: int, root: nat): Option<Newton>
    requires d >= 0
  {
    if root == 1 || d == 0 || d == ONE then Some(Newton(0, d))
    else if root == 0 then Some(Newton(0, ONE))
    else IterateFrom(NewtonStep(d, root), Newton(ONE, ONE), 0)
  }

  function ApproxRoot(d: int, root: nat): Option<int> {
    if d < 0 then
      var a :- Checked(-d);
      var r :- Root(a, root);
      Checked(-r.guess)
    else
      var r :- Root(d, root);
      Some(r.guess)
  }

  method IterateDec(d: int, root: nat, guess: int) returns (s: Option<Newton>)
    requires root >= 2
    ensures s == Iterate(d, root, guess)
  {
    hide Power, Div, Checked, Quo;
    var prev := PowerDec(guess, root - 1);
    if prev.None? { return None; }
    var quo := QuoDec(d, if prev.value == 0 then 1 else prev.value);
    if quo.None? { return None; }
    var diff := Sub(quo.value, guess);
    if diff.None? { return None; }
    var delta := Quo(diff.value, root);
    var next := Add(guess, delta);
    if next.None? { return None; }
    return Some(Newton(delta, next.value));
  }

  /** The root of a non-negative Dec and the last step of its loop; the guess is at least one unit throughout. */
  method PositiveRootDec(d: nat, root: nat) returns (r: Option<Newton>)
    ensures d > 0 && r.Some? ==> r.value.guess >= 1
    ensures r == Root(d, root)
  {
    hide Iterate, IterateFrom, NewtonStep, Power, Correct;
    if root == 1 || d == 0 || d == ONE { return Some(Newton(0, d)); }
    if root == 0 { return Some(Newton(0, ONE)); }
    var guess, delta, iter := ONE, ONE, 0;
    while Abs(delta) > 1 && iter < MAX_ITERATIONS
      invariant 0 <= iter <= MAX_ITERATIONS && guess >= 1
      invariant IterateFrom(NewtonStep(d, root), Newton(delta, guess), iter) == Root(d, root)
      decreases MAX_ITERATIONS - iter
    {
      OneMoreStep(d, root, Newton(delta, guess), iter);
      var s := IterateDec(d, root, guess);
      if s.None? { return None; }
      assert s.value.guess >= 1 by {
        KnownPower(d, root, guess);
        PowerNonNegative(guess, root - 1);
        GuessStaysPositive(d, root, guess, Power(guess, root - 1).value);
      }
      delta, guess, iter := s.value.delta, s.value.guess, iter + 1;
    }
    OneMoreStep(d, root, Newton(delta, guess), iter);
    return Some(Newton(delta, guess));
  }

  lemma NewtonStepIs(d: int, root: nat, guess: int)
    requires root >= 2
    ensures NewtonStep(d, root)(guess) == Iterate(d, root, guess)
  {
    hide Iterate;
  }

  lemma KnownPower(d: int, root: nat, guess: int)
    requires root >= 2
    ensures var p := Power(guess, root - 1);
            Iterate(d, root, guess) == if p.None? then None else Correct(d, root, guess, p.value)
  {
    hide Power, Correct;
  }

  lemma OneMoreStep(d: int, root: nat, n: Newton, iter: nat)
    requires root >= 2 && iter <= MAX_ITERATIONS
    ensures var r := IterateFrom(NewtonStep(d, root), n, iter);
            if Abs(n.delta) <= 1 || iter == MAX_ITERATIONS then r == Some(n)
            else
              var s := Iterate(d, root, n.guess);
              r == if s.None? then None else IterateFrom(NewtonStep(d, root), s.value, iter + 1)
  {
    hide Iterate;
  }

  // ------------------------------------------------------- every iteration

  /** A step from a guess of at least one unit ends at a guess of at least one unit, for every root. */
  lemma GuessStaysPositive(d: nat, root: nat, guess: int, prev: nat)
    requires root >= 2 && guess >= 1
    ensures var s := Correct(d, root, guess, prev); s.Some? ==> s.value.guess >= 1
  {
    var b := if prev == 0 then 1 else prev;
    NonNegativeDiv(d, b);
    if Div(d, b).Some? {
      var q := Div(d, b).value;
      assert q >= 0;
      hide Div;
      ShrinkStops(q, guess, root);
    }
  }

  lemma NonNegativeDiv(d: int, b: int)
    requires d >= 0 && b > 0
    ensures NearestEven(Scaled(d, b)) >= 0
  {
    FloorLeast(d * ONE * ONE, b, 0);
  }

  lemma ShrinkStops(q: int, g: int, root: nat)
    requires q >= 0 && g >= 1 && root >= 2
    ensures g + Arith.Quo(q - g, root) >= 1
  {
    if q < g {
      var k := (g - q) / root;
      assert g - q == k * root + (g - q) % root;
      MulMono(2, root, k);
    } else {
      FloorLeast(q - g, root, 0);
    }
  }

  // ---------------------------------------------------------- square roots

  lemma FirstPower(g: int)
    ensures Power(g, 1) == Checked(g)
  {
    NearestEvenExact(g);
  }

  /** What a square-root step computes, when the guess is in range and positive. */
  lemma SqrtStep(d: int, g: int)
    requires d >= 0 && 1 <= g < DEC_LIMIT
    ensures var q := NearestEven(Scaled(d, g));
            && q >= 0
            && Abs(q * g - d * ONE) < g
            && (Iterate(d, 2, g).Some? ==>
                  Iterate(d, 2, g) == Some(Newton(Arith.Quo(q - g, 2), g + Arith.Quo(q - g, 2))))
            && (q < DEC_LIMIT && g + Arith.Quo(q - g, 2) < DEC_LIMIT ==> Iterate(d, 2, g).Some?)
  {
    FirstPower(g);
    NonNegativeDiv(d, g);
    RawDivError(d, g);
    BelowGuess(Abs(NearestEven(Scaled(d, g)) * g - d * ONE), g, ONE);
    hide Power, Scaled, NearestEven;
  }

  /** The exact root lies within r - 2 and r + 2. */
  ghost predicate Certified(n: int, r: int) { Abs(r * r - n) <= 2 * r + 2 }

  /** q is the rounded quotient of n by g, and s is where a square-root step from g ends. */
  ghost predicate StepsBy(n: int, g: int, q: int, s: Newton) {
    Abs(q * g - n) < g && -1 <= q - g - 2 * s.delta <= 1 && s.guess == g + s.delta >= 1
  }

  /** A small step is a certificate. */
  lemma SmallStepCertifies(n: int, g: int, q: int, s: Newton)
    requires g >= 1 && StepsBy(n, g, q, s) && Abs(s.delta) <= 1
    ensures Certified(n, s.guess)
  {
    var e, w := s.delta, (q - g) - 2 * s.delta;
    SquaredStep(n, g, q, e, w);
    assert -g <= w * g <= g;
    assert 0 <= e * e <= 1;
  }

  lemma SquaredStep(n: int, g: int, q: int, e: int, w: int)
    requires q == g + 2 * e + w
    ensures (g + e) * (g + e) - n == (q * g - n) - w * g + e * e
  {
  }

  lemma BelowGuess(x: int, g: int, p: int)
    requires p >= 2 && g >= 1 && 2 * p * x < (p + 2) * g
    ensures x < g
  {
    MulMono(p + 2, 2 * p, g);
    CancelStrict(x, g, 2 * p);
  }

  lemma CancelStrict(x: int, y: int, t: int)
    requires t > 0 && x * t < y * t
    ensures x < y
  {
  }

  /** Every step is one of Newton's steps for the square root of n, and stays in range. */
  ghost predicate StepsTowards(n: int, step: Step) {
    forall g :: 1 <= g < DEC_LIMIT && step(g).Some? ==>
      step(g).value.guess < DEC_LIMIT && exists q :: StepsBy(n, g, q, step(g).value)
  }

  lemma IterateInRange(d: int, root: nat, g: int)
    requires root >= 2
    ensures Iterate(d, root, g).Some? ==> Iterate(d, root, g).value.guess < DEC_LIMIT
  {
    hide Power, Div;
  }

  lemma NewtonStepsBy(d: nat, g: int, s: Newton)
    requires 1 <= g < DEC_LIMIT
    ensures Iterate(d, 2, g) == Some(s) ==> exists q :: StepsBy(d * ONE, g, q, s)
  {
    hide Iterate, NearestEven, Scaled;
    var q := NearestEven(Scaled(d, g));
    SqrtStep(d, g);
    ShrinkStops(q, g, 2);
    QuoMeans(q - g, 2);
    if Iterate(d, 2, g) == Some(s) {
      assert StepsBy(d * ONE, g, q, s);
    }
  }

  /** A run of such steps that stopped on a small one ends at a certified root. */
  lemma {:induction false} RunCertifies(m: int, step: Step, n: Newton, iter: nat, r: Newton)
    requires StepsTowards(m, step) && iter <= MAX_ITERATIONS
    requires 1 <= n.guess < DEC_LIMIT && Abs(n.delta) > 1
    requires IterateFrom(step, n, iter) == Some(r) && Abs(r.delta) <= 1
    ensures Certified(m, r.guess)
    decreases MAX_ITERATIONS - iter
  {
    hide Certified;
    var s := step(n.guess).value;
    var q :| StepsBy(m, n.guess, q, s);
    if Abs(s.delta) > 1 {
      RunCertifies(m, step, s, iter + 1, r);
    } else {
      SmallStepCertifies(m, n.guess, q, s);
    }
  }
}
