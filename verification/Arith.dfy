/**
 Integer arithmetic shared by the other modules: the truncating division of Go's
 `big.Int.Quo`, powers, bit lengths, and the two machine-style range limits that
 the SDK's `Int` (255 bits) and `Dec` (255 + 60 bits) check.
 */
module Arith {

  /** A result that may be missing: the model's form of a Go panic or returned error. */
  datatype Option<+T> = None | Some(value: T) {
    predicate IsFailure() { None? }

    function PropagateFailure<U>(): Option<U>
      requires None?
    {
      None
    }

    function Extract(): T
      requires Some?
    {
      value
    }
  }

  // 2^255 and 2^315: the first magnitudes that Int and Dec refuse.
  const INT_LIMIT: int := 0x8000000000000000000000000000000000000000000000000000000000000000
  const DEC_LIMIT: int := 0x8000000000000000000000000000000000000000000000000000000000000000000000000000000

  function Abs(x: int): nat {
    if x < 0 then -x else x
  }

  function Min(x: int, y: int): int {
    if x < y then x else y
  }

  function Pow(b: int, e: nat): int {
    if e == 0 then 1 else b * Pow(b, e - 1)
  }

  lemma {:induction false} PowAdds(b: int, m: nat, n: nat)
    ensures Pow(b, m + n) == Pow(b, m) * Pow(b, n)
  {
    if m > 0 {
      PowAdds(b, m - 1, n);
      assert Pow(b, m + n) == b * Pow(b, m - 1 + n);
      assert b * (Pow(b, m - 1) * Pow(b, n)) == b * Pow(b, m - 1) * Pow(b, n);
    }
  }

  lemma {:induction false} PowPositive(b: int, e: nat)
    requires b > 0
    ensures Pow(b, e) > 0
  {
    if e > 0 {
      PowPositive(b, e - 1);
    }
  }

  /** Both limits are the powers of two that the bit-length checks compare against. */
  lemma LimitsArePowersOfTwo()
    ensures INT_LIMIT == Pow(2, 255)
    ensures DEC_LIMIT == Pow(2, 315)
  {
    assert Pow(2, 5) == 32;
    assert Pow(2, 15) == 0x8000 by {
      PowAdds(2, 5, 5);
      PowAdds(2, 10, 5);
    }
    assert Pow(2, 30) == 0x40000000 by { PowAdds(2, 15, 15); }
    assert Pow(2, 60) == 0x1000000000000000 by { PowAdds(2, 30, 30); }
    assert Pow(2, 120) == 0x1000000000000000 * 0x1000000000000000 by { PowAdds(2, 60, 60); }
    PowAdds(2, 120, 120);
    PowAdds(2, 240, 15);
    PowAdds(2, 255, 60);
  }

  /** Go's `Quo`: division truncated toward zero. */
  function Quo(x: int, y: int): int
    requires y != 0
  {
    if x >= 0 then
      if y > 0 then x / y else -(x / -y)
    else
      if y > 0 then -(-x / y) else -x / -y
  }

  /** Truncated division is fixed by its remainder: smaller than the divisor, signed like the dividend. */
  lemma QuoMeans(x: int, y: int)
    requires y != 0
    ensures Abs(x - Quo(x, y) * y) < Abs(y)
    ensures x >= 0 ==> x - Quo(x, y) * y >= 0
    ensures x <= 0 ==> x - Quo(x, y) * y <= 0
  {
    var a, b := Abs(x), Abs(y);
    var q, r := a / b, a % b;
    assert a == q * b + r;
    NegatedFactors(q, b);
  }

  lemma NegatedFactors(q: int, b: int)
    ensures -q * b == -(q * b) && q * -b == -(q * b) && -q * -b == q * b
  {
  }

  lemma AbsMul(x: int, y: int)
    ensures Abs(x * y) == Abs(x) * Abs(y)
  {
    var p := Abs(x) * Abs(y);
    assert p >= 0;
    if x < 0 {
      assert p == -x * Abs(y);
      if y < 0 { assert x * y == -x * -y; } else { assert x * y == -(-x * y); }
    } else if y < 0 {
      assert x * y == -(x * -y);
    }
  }

  lemma QuoNegates(x: int, y: int)
    requires y != 0
    ensures Quo(-x, y) == -Quo(x, y) && Quo(x, -y) == -Quo(x, y)
  {
  }

  lemma MulMono(a: int, b: int, c: int)
    requires a <= b && c >= 0
    ensures a * c <= b * c
  {
  }

  lemma MulCancel(x: int, y: int, p: int)
    requires p > 0 && x * p <= y * p
    ensures x <= y
  {
  }

  /** The floor of x / y is the largest q with q * y <= x. */
  lemma FloorLeast(x: int, y: int, q: int)
    requires y > 0
    ensures q <= x / y <==> q * y <= x
  {
    assert x == x / y * y + x % y;
    if q <= x / y {
      MulMono(q, x / y, y);
    } else {
      MulMono(x / y + 1, q, y);
      assert (x / y + 1) * y == x / y * y + y;
    }
  }

  /** `big.Int.BitLen`: the number of binary digits of the magnitude. */
  function BitLen(x: int): nat
    decreases Abs(x)
  {
    if x == 0 then 0 else 1 + BitLen(Abs(x) / 2)
  }

  lemma {:induction false} BitLenMeans(x: int, n: nat)
    ensures BitLen(x) <= n <==> Abs(x) < Pow(2, n)
    decreases n
  {
    if n > 0 && x != 0 {
      BitLenMeans(Abs(x) / 2, n - 1);
      assert Abs(x) / 2 < Pow(2, n - 1) <==> Abs(x) < 2 * Pow(2, n - 1);
    } else if n > 0 {
      PowPositive(2, n);
    }
  }
}
