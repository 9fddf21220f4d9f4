/**
 Constant-product pricing (modules/coinswap/coinswap.go): what a pool with reserves x and y
 pays for an exact input, and what it charges for an exact output. The fee is a Dec; the
 prices below take the kept share k = ONE - fee.
 */
module Swap {
  import opened Arith
  import Ints
  import Decimals
  import opened Rates = SwapMath

  function InputPrice(amt: int, inputReserve: int, outputReserve: int, fee: int): Option<int> {
    var delta :- Decimals.Sub(ONE, fee);
    var share :- Ints.Bounded(delta);
    var amtWithFee :- Ints.Mul(amt, share);
    var numerator :- Ints.Mul(amtWithFee, outputReserve);
    var unit :- Ints.WithDecimal(1, Decimals.PRECISION);
    var scaled :- Ints.Mul(inputReserve, unit);
    var denominator :- Ints.Add(scaled, amtWithFee);
    Ints.Quo(numerator, denominator)
  }

  function OutputPrice(amt: int, inputReserve: int, outputReserve: int, fee: int): Option<int> {
    var delta :- Decimals.Sub(ONE, fee);
    var paid :- Ints.Mul(inputReserve, amt);
    var unit :- Ints.WithDecimal(1, Decimals.PRECISION);
    var numerator :- Ints.Mul(paid, unit);
    var left :- Ints.Sub(outputReserve, amt);
    var share :- Ints.Bounded(delta);
    var denominator :- Ints.Mul(left, share);
    var quo :- Ints.Quo(numerator, denominator);
    Ints.Add(quo, 1)
  }

  lemma UnitIsOne(n: int)
    requires Ints.WithDecimal(1, Decimals.PRECISION) == Some(n)
    ensures n == ONE
  {
    Decimals.OneIsPowerOfTen();
  }

  lemma MulReturns(x: int, y: int)
    ensures Ints.Mul(x, y).Some? ==> Ints.Mul(x, y).value == x * y
  {
  }

  /** A price that is returned is the exact floor of the constant-product formula. */
  lemma InputPriceReturns(amt: int, x: int, y: int, fee: int, out: int)
    requires amt >= 0 && x > 0 && y >= 0 && 0 <= fee <= ONE
    ensures InputPrice(amt, x, y, fee) == Some(out) ==>
              out == Sold(amt, x, y, ONE - fee)
  {
    hide Ints.Mul, Ints.WithDecimal, Sold, Arith.Quo;
    var k := ONE - fee;
    SoldIsQuotient(amt, x, y, k);
    MulReturns(amt, k);
    MulReturns(amt * k, y);
    MulReturns(x, ONE);
    if InputPrice(amt, x, y, fee) == Some(out) {
      UnitIsOne(Ints.WithDecimal(1, Decimals.PRECISION).value);
    }
  }

  /**
   A price that is returned is one more than the quotient of the formula, for all arguments. For a part
   of the reserve that is the exact input's floor plus one; an order beyond the reserve is not refused
   but quoted one at most.
   */
  lemma OutputPriceReturns(out: int, x: int, y: int, fee: int, amt: int)
    ensures OutputPrice(out, x, y, fee) == Some(amt) ==>
              && (y - out) * (ONE - fee) != 0
              && amt == Arith.Quo(x * out * ONE, (y - out) * (ONE - fee)) + 1
              && (x > 0 && 0 < out < y && fee < ONE ==> amt == Bought(out, x, y, ONE - fee))
              && (x > 0 && out > 0 && out > y && fee < ONE ==> amt <= 1)
  {
    hide Ints.Mul, Ints.WithDecimal, Bought, Arith.Quo;
    var k := ONE - fee;
    if x > 0 && 0 < out < y && fee < ONE { BoughtIsQuotient(out, x, y, k); }
    if x > 0 && out > 0 && out > y && fee < ONE { BeyondReserve(out, x, y, k); }
    MulReturns(x, out);
    MulReturns(x * out, ONE);
    MulReturns(y - out, k);
    if OutputPrice(out, x, y, fee) == Some(amt) {
      UnitIsOne(Ints.WithDecimal(1, Decimals.PRECISION).value);
    }
  }

  predicate IsInt(n: int) { 0 <= n < INT_LIMIT }

  lemma BoundedProduct(x: int, y: int)
    requires IsInt(x) && IsInt(y)
    ensures x * y >= 0 && Ints.Mul(x, y) == if x * y < INT_LIMIT then Some(x * y) else None
  {
    Ints.MulRefusesOnlyOverflow(x, y);
    hide Ints.Mul;
    assert x * y >= 0;
  }

  lemma OneIsInt()
    ensures IsInt(ONE) && Ints.WithDecimal(1, Decimals.PRECISION) == Some(ONE)
  {
    Decimals.OneIsPowerOfTen();
    hide Pow;
  }

  /**
   Selling returns a price exactly when the amount after the fee, its product with the output reserve, the
   scaled input reserve and the divisor are Ints; the price is then the floor of the formula.
   */
  lemma InputPriceIff(amt: int, x: int, y: int, fee: int)
    requires IsInt(amt) && IsInt(x) && x > 0 && IsInt(y) && 0 <= fee <= ONE
    ensures var n := amt * (ONE - fee);
            InputPrice(amt, x, y, fee) ==
              if IsInt(n) && IsInt(n * y) && IsInt(x * ONE) && IsInt(x * ONE + n) then Some(Sold(amt, x, y, ONE - fee)) else None
  {
    hide Ints.Mul, Ints.WithDecimal, Sold, Arith.Quo, INT_LIMIT, InputPrice, Decimals.Sub;
    OneIsInt();
    ShareFits(fee);
    SoldIsQuotient(amt, x, y, ONE - fee);
    BoundedProduct(amt, ONE - fee);
    BoundedProduct(x, ONE);
    InputPriceSteps(amt, x, y, fee, ONE - fee, amt * (ONE - fee), x * ONE);
  }

  lemma InputPriceSteps(amt: int, x: int, y: int, fee: int, k: int, n: nat, d: nat)
    requires Decimals.Sub(ONE, fee) == Some(k) && Ints.Bounded(k) == Some(k) && IsInt(y) && d > 0
    requires Ints.WithDecimal(1, Decimals.PRECISION) == Some(ONE)
    requires Ints.Mul(amt, k) == (if n < INT_LIMIT then Some(n) else None)
    requires Ints.Mul(x, ONE) == (if d < INT_LIMIT then Some(d) else None)
    ensures InputPrice(amt, x, y, fee) ==
              if IsInt(n) && IsInt(n * y) && IsInt(d) && IsInt(d + n) then Some(Arith.Quo(n * y, d + n)) else None
  {
    hide Ints.Mul, Ints.WithDecimal, Arith.Quo, INT_LIMIT, Decimals.Sub;
    if IsInt(n) { BoundedProduct(n, y); }
  }

  lemma ShareFits(fee: int)
    requires 0 <= fee <= ONE
    ensures Decimals.Sub(ONE, fee) == Some(ONE - fee) && Ints.Bounded(ONE - fee) == Some(ONE - fee) && IsInt(ONE - fee)
  {
  }

  /**
   Buying a part of the output reserve returns a price exactly when the scaled product of input reserve
   and amount, the divisor and the price itself are Ints; the price is then one more than the floor.
   */
  lemma OutputPriceIff(out: int, x: int, y: int, fee: int)
    requires IsInt(x) && x > 0 && IsInt(y) && 0 < out < y && 0 <= fee < ONE
    ensures var k := ONE - fee;
            (y - out) * k > 0 &&
            OutputPrice(out, x, y, fee) ==
              if IsInt(x * out * ONE) && IsInt((y - out) * k) && IsInt(Bought(out, x, y, k)) then Some(Bought(out, x, y, k)) else None
  {
    hide Ints.Mul, Ints.WithDecimal, Bought, Arith.Quo, INT_LIMIT, OutputPrice, Decimals.Sub;
    var k := ONE - fee;
    OneIsInt();
    ShareFits(fee);
    BoughtIsQuotient(out, x, y, k);
    BoughtPositive(out, x, y, k);
    BoundedProduct(x, out);
    BoundedProduct(y - out, k);
    OutputPriceSteps(out, x, y, fee, k, x * out, (y - out) * k);
  }

  lemma OutputPriceSteps(out: int, x: int, y: int, fee: int, k: int, p: nat, d: nat)
    requires Decimals.Sub(ONE, fee) == Some(k) && Ints.Bounded(k) == Some(k) && IsInt(y) && 0 < out < y && d > 0
    requires Ints.WithDecimal(1, Decimals.PRECISION) == Some(ONE)
    requires Ints.Mul(x, out) == (if p < INT_LIMIT then Some(p) else None)
    requires Ints.Mul(y - out, k) == (if d < INT_LIMIT then Some(d) else None)
    requires Arith.Quo(p * ONE, d) + 1 >= 1
    ensures var q := Arith.Quo(p * ONE, d) + 1;
            OutputPrice(out, x, y, fee) == if IsInt(p * ONE) && IsInt(d) && IsInt(q) then Some(q) else None
  {
    hide Ints.Mul, Ints.WithDecimal, Arith.Quo, Decimals.Sub;
    OneIsInt();
    if IsInt(p) { BoundedProduct(p, ONE); }
  }

  /** At a fee of three per mille, a hundred into reserves of ten thousand yields 98. */
  lemma PriceWithFee()
    ensures InputPrice(100, 10000, 10000, 3_000_000_000_000_000) == Some(98)
  {
    InputPriceIff(100, 10000, 10000, 3_000_000_000_000_000);
    hide InputPrice, Sold, Pow;
    assert 100 * (ONE - 3_000_000_000_000_000) == 99_700_000_000_000_000_000;
    SoldOfExample();
  }

  // ---------------------------------------------------------- runs of a pool

  datatype Pool = Pool(x: int, y: int)

  /** Sell an exact amount of one side, or buy an exact amount of one side. */
  datatype Order = SellX(amt: nat) | SellY(amt: nat) | BuyX(amt: nat) | BuyY(amt: nat)

  function Flip(p: Pool): Pool { Pool(p.y, p.x) }

  /** A sale priced by InputPrice; an order whose price panics does not happen. */
  function SellInto(p: Pool, amt: nat, fee: int): Pool {
    match InputPrice(amt, p.x, p.y, fee)
    case None => p
    case Some(out) => Pool(p.x + amt, p.y - out)
  }

  /** A purchase priced by OutputPrice; a pool cannot sell out, so larger orders do not happen. */
  function BuyFrom(p: Pool, out: nat, fee: int): Pool {
    if !(0 < out < p.y) then p else
    match OutputPrice(out, p.x, p.y, fee)
    case None => p
    case Some(amt) => Pool(p.x + amt, p.y - out)
  }

  function Execute(p: Pool, o: Order, fee: int): Pool {
    match o
    case SellX(amt) => SellInto(p, amt, fee)
    case SellY(amt) => Flip(SellInto(Flip(p), amt, fee))
    case BuyX(amt) => Flip(BuyFrom(Flip(p), amt, fee))
    case BuyY(amt) => BuyFrom(p, amt, fee)
  }

  function Run(p: Pool, orders: seq<Order>, fee: int): Pool
    decreases |orders|
  {
    if orders == [] then p else Run(Execute(p, orders[0], fee), orders[1..], fee)
  }

  predicate Live(p: Pool) { p.x > 0 && p.y > 0 }

  ghost predicate NoWorse(p: Pool, q: Pool) {
    Live(q) && p.x * p.y <= q.x * q.y
  }

  lemma SellKeepsPool(p: Pool, amt: nat, fee: int)
    requires Live(p) && 0 <= fee <= ONE
    ensures NoWorse(p, SellInto(p, amt, fee))
  {
    hide InputPrice, Sold;
    var r := InputPrice(amt, p.x, p.y, fee);
    if r.Some? {
      InputPriceReturns(amt, p.x, p.y, fee, r.value);
      SoldKeepsProduct(amt, p.x, p.y, ONE - fee);
    }
  }

  /** With a fee of one nothing can be bought: its price divides by zero. */
  lemma NothingLeftToBuy(out: int, x: int, y: int)
    ensures OutputPrice(out, x, y, ONE).None?
  {
    hide Ints.WithDecimal, Ints.Mul;
    MulReturns(y - out, 0);
  }

  lemma BuyKeepsPool(p: Pool, out: nat, fee: int)
    requires Live(p) && 0 <= fee <= ONE
    ensures NoWorse(p, BuyFrom(p, out, fee))
  {
    NothingLeftToBuy(out, p.x, p.y);
    hide OutputPrice, Bought;
    if 0 < out < p.y && fee < ONE {
      var r := OutputPrice(out, p.x, p.y, fee);
      if r.Some? {
        OutputPriceReturns(out, p.x, p.y, fee, r.value);
        BoughtKeepsProduct(out, p.x, p.y, ONE - fee);
      }
    }
  }

  /** Over any run of sales and purchases in either direction, both reserves stay positive and their product never falls. */
  lemma {:induction false} RunKeepsPool(p: Pool, orders: seq<Order>, fee: int)
    requires Live(p) && 0 <= fee <= ONE
    ensures NoWorse(p, Run(p, orders, fee))
    decreases |orders|
  {
    if orders != [] {
      var o := orders[0];
      var q := Execute(p, o, fee);
      assert NoWorse(p, q) by {
        match o {
          case SellX(amt) => SellKeepsPool(p, amt, fee);
          case SellY(amt) => SellKeepsPool(Flip(p), amt, fee);
          case BuyX(amt) => BuyKeepsPool(Flip(p), amt, fee);
          case BuyY(amt) => BuyKeepsPool(p, amt, fee);
        }
        assert p.x * p.y == p.y * p.x && q.x * q.y == q.y * q.x;
      }
      RunKeepsPool(q, orders[1..], fee);
    }
  }

  /** No run of trades takes something for nothing: if one reserve did not grow, the other did not shrink. */
  lemma NoFreeLunch(p: Pool, orders: seq<Order>, fee: int)
    requires Live(p) && 0 <= fee <= ONE
    ensures var q := Run(p, orders, fee);
            (q.y <= p.y ==> q.x >= p.x) && (q.x <= p.x ==> q.y >= p.y)
  {
    hide Run;
    var q := Run(p, orders, fee);
    RunKeepsPool(p, orders, fee);
    if q.y <= p.y {
      OtherFactor(p.x, p.y, q.x, q.y);
    }
    if q.x <= p.x {
      assert p.x * p.y == p.y * p.x && q.x * q.y == q.y * q.x;
      OtherFactor(p.y, p.x, q.y, q.x);
    }
  }

  // ------------------------------------------------------- single-trade laws

  /** Splitting one sale into two successive ones never yields more. */
  lemma SplittingNeverPays(a: nat, b: nat, x: int, y: int, fee: int, first: int, second: int, whole: int)
    requires x > 0 && y > 0 && 0 <= fee <= ONE
    ensures InputPrice(a, x, y, fee) == Some(first)
         && InputPrice(b, x + a, y - first, fee) == Some(second)
         && InputPrice(a + b, x, y, fee) == Some(whole)
         ==> first + second <= whole
  {
    hide InputPrice, Sold;
    if && InputPrice(a, x, y, fee) == Some(first)
       && InputPrice(b, x + a, y - first, fee) == Some(second)
       && InputPrice(a + b, x, y, fee) == Some(whole)
    {
      InputPriceReturns(a, x, y, fee, first);
      SoldKeepsProduct(a, x, y, ONE - fee);
      InputPriceReturns(b, x + a, y - first, fee, second);
      InputPriceReturns(a + b, x, y, fee, whole);
      SplitSold(a, b, x, y, ONE - fee, first, second, whole);
    }
  }

  /** Paying the quoted price for an exact output is enough to get it, and paying two less is not. */
  lemma OutputPriceSuffices(out: int, x: int, y: int, fee: int, amt: int, less: nat, got: int)
    requires x > 0 && 0 < out < y && 0 <= fee < ONE
    ensures OutputPrice(out, x, y, fee) == Some(amt) && InputPrice(less, x, y, fee) == Some(got) ==>
              (less >= amt ==> got >= out) && (less <= amt - 2 ==> got < out)
  {
    hide InputPrice, OutputPrice, Sold, Bought;
    if OutputPrice(out, x, y, fee) == Some(amt) && InputPrice(less, x, y, fee) == Some(got) {
      OutputPriceReturns(out, x, y, fee, amt);
      InputPriceReturns(less, x, y, fee, got);
      SoldReaches(less, out, x, y, ONE - fee);
      BoughtReaches(less, out, x, y, ONE - fee);
    }
  }

  /** The quote is one more than needed exactly when the exact price is a whole number. */
  lemma OutputPriceMinimalIff(out: int, x: int, y: int, fee: int, amt: int, got: int)
    requires x > 0 && 0 < out < y && 0 <= fee < ONE
    ensures OutputPrice(out, x, y, fee) == Some(amt) && amt >= 1 && InputPrice(amt - 1, x, y, fee) == Some(got) ==>
              (got < out <==> x * out * ONE % Positive(y - out, ONE - fee) != 0)
  {
    hide InputPrice, OutputPrice, Sold, Bought;
    if OutputPrice(out, x, y, fee) == Some(amt) && amt >= 1 && InputPrice(amt - 1, x, y, fee) == Some(got) {
      OutputPriceReturns(out, x, y, fee, amt);
      InputPriceReturns(amt - 1, x, y, fee, got);
      BoughtMinimalIff(out, x, y, ONE - fee, amt, got);
    }
  }

  /** Half of a reserve of 200 against one of 100, without a fee, is quoted 101 although 100 buys it. */
  lemma QuoteCanBeOneTooHigh()
    ensures OutputPrice(100, 100, 200, 0) == Some(101)
    ensures InputPrice(100, 100, 200, 0) == Some(100)
  {
    Decimals.OneIsPowerOfTen();
    Ints.MulRefusesOnlyOverflow(100, ONE);
    Ints.MulRefusesOnlyOverflow(100 * ONE, 200);
    Ints.MulRefusesOnlyOverflow(100, 100);
    Ints.MulRefusesOnlyOverflow(10000, ONE);
    hide Ints.Mul, Pow;
  }
}

/** The two formulas on plain integers, with the nonlinear arithmetic they need. */
module SwapMath {
  import opened Arith
  import Decimals

  const ONE: int := Decimals.ONE

  function Sold(a: nat, x: int, y: int, k: int): int
    requires x > 0 && k >= 0
  {
    assert a * k >= 0;
    a * k * y / (x * ONE + a * k)
  }

  function Bought(o: int, x: int, y: int, k: int): int
    requires (y - o) * k != 0
  {
    x * o * ONE / ((y - o) * k) + 1
  }

  /** For these operands truncating division is flooring division. */
  lemma SoldIsQuotient(a: nat, x: int, y: nat, k: nat)
    requires x > 0
    ensures Quo(a * k * y, x * ONE + a * k) == Sold(a, x, y, k)
  {
    var n, m := a * k, a * k * y;
    assert n >= 0;
    assert m >= 0;
  }

  lemma BoughtIsQuotient(o: nat, x: nat, y: int, k: int)
    requires y > o && k > 0
    ensures (y - o) * k > 0 && Quo(x * o * ONE, (y - o) * k) + 1 == Bought(o, x, y, k)
  {
    var n, m := x * o, (y - o) * k;
    assert n >= 0;
    assert m > 0;
  }

  lemma BoughtPositive(o: nat, x: nat, y: int, k: int)
    requires y > o && k > 0
    ensures (y - o) * k > 0 && Bought(o, x, y, k) >= 1
  {
    var n, m := x * o * ONE, (y - o) * k;
    assert n >= 0 by { assert x * o >= 0; }
    assert m > 0;
    FloorLeast(n, m, 0);
  }

  lemma SoldOfExample()
    ensures Sold(100, 10000, 10000, ONE - 3_000_000_000_000_000) == 98
  {
  }

  lemma BeyondReserve(o: nat, x: nat, y: int, k: int)
    requires y < o && k > 0
    ensures (y - o) * k < 0 && Quo(x * o * ONE, (y - o) * k) <= 0
  {
    var n, m := x * o * ONE, (o - y) * k;
    assert n >= 0 by { assert x * o >= 0; }
    assert m > 0 && (y - o) * k == -m;
    FloorLeast(n, m, 0);
  }

  function Positive(a: int, b: int): (p: int)
    requires a > 0 && b > 0
    ensures p == a * b > 0
  {
    assert a * b > 0;
    a * b
  }

  lemma OtherFactor(x: int, y: int, u: int, v: int)
    requires 0 < v <= y && u > 0 && x * y <= u * v
    ensures x <= u
  {
    MulMono(v, y, u);
    MulCancel(x, u, y);
  }

  /** Sold is the largest output with out * (x * ONE + a * k) <= a * k * y; rearranged, the input covers it. */
  lemma SoldReaches(a: nat, out: int, x: int, y: int, k: int)
    requires x > 0 && k >= 0
    ensures Sold(a, x, y, k) >= out <==> a * ((y - out) * k) >= x * out * ONE
  {
    assert a * k >= 0;
    FloorLeast(a * k * y, x * ONE + a * k, out);
    assert out * (x * ONE + a * k) == x * out * ONE + a * k * out;
    assert a * k * y - a * k * out == a * ((y - out) * k);
  }

  lemma BoughtReaches(a: int, out: int, x: int, y: int, k: int)
    requires x > 0 && 0 < out < y && k > 0
    ensures a >= Bought(out, x, y, k) ==> a * ((y - out) * k) >= x * out * ONE
    ensures a <= Bought(out, x, y, k) - 2 ==> a * ((y - out) * k) < x * out * ONE
  {
    var n, c := x * out * ONE, (y - out) * k;
    assert c > 0;
    FloorLeast(n, c, a);
    FloorLeast(n, c, a + 1);
    assert (a + 1) * c == a * c + c;
  }

  lemma BoughtMinimalIff(out: int, x: int, y: int, k: int, amt: int, got: int)
    requires x > 0 && 0 < out < y && k > 0
    requires amt == Bought(out, x, y, k) && amt >= 1 && got == Sold(amt - 1, x, y, k)
    ensures got < out <==> x * out * ONE % ((y - out) * k) != 0
  {
    hide Sold;
    var n, c := x * out * ONE, (y - out) * k;
    assert c > 0;
    SoldReaches(amt - 1, out, x, y, k);
    assert n == n / c * c + n % c;
  }

  lemma {:induction false} SoldKeepsProduct(a: nat, x: int, y: int, k: int)
    requires x > 0 && y > 0 && 0 <= k <= ONE
    ensures 0 <= Sold(a, x, y, k) < y
    ensures x * y <= (x + a) * (y - Sold(a, x, y, k))
  {
    hide Sold;
    var o := Sold(a, x, y, k);
    SoldReaches(a, o, x, y, k);
    SoldReaches(a, y, x, y, k);
    SoldReaches(a, 0, x, y, k);
    assert a * (y * k) >= 0;
    assert x * y * ONE > 0;
    ProductKept(a, o, x, y, k, ONE);
  }

  lemma ProductKept(a: nat, o: int, x: int, y: int, k: int, p: int)
    requires o < y && 0 <= k <= p && p > 0 && a * ((y - o) * k) >= x * o * p
    ensures x * y <= (x + a) * (y - o)
  {
    var z := a * (y - o);
    assert a * ((y - o) * k) == z * k;
    assert z >= 0;
    MulMono(k, p, z);
    assert x * o * p == (x * o) * p;
    MulCancel(x * o, z, p);
    assert (x + a) * (y - o) == x * y - x * o + z;
  }

  lemma BoughtKeepsProduct(out: int, x: int, y: int, k: int)
    requires x > 0 && 0 < out < y && 0 < k <= ONE
    ensures Bought(out, x, y, k) > 0
    ensures x * y <= (x + Bought(out, x, y, k)) * (y - out)
  {
    var a := Bought(out, x, y, k);
    assert x * out * ONE > 0 && (y - out) * k > 0;
    BoughtReaches(a, out, x, y, k);
    ProductKept(a, out, x, y, k, ONE);
  }

  lemma SplitSold(a: nat, b: nat, x: int, y: int, k: int, o: int, u: int, w: int)
    requires x > 0 && y > 0 && 0 <= k <= ONE
    requires o == Sold(a, x, y, k) && u == Sold(b, x + a, y - o, k) && w == Sold(a + b, x, y, k)
    ensures o + u <= w
  {
    SoldReaches(a, o, x, y, k);
    SoldReaches(b, u, x + a, y - o, k);
    SoldReaches(a + b, o + u, x, y, k);
    SoldKeepsProduct(a, x, y, k);
    SoldKeepsProduct(b, x + a, y - o, k);
    SplitReaches(a, b, x, y, k, o, u, ONE);
  }

  lemma SplitReaches(a: nat, b: nat, x: int, y: int, k: int, o: int, u: int, p: int)
    requires 0 <= k <= p && u >= 0
    requires a * ((y - o) * k) >= x * o * p
    requires b * ((y - o - u) * k) >= (x + a) * u * p
    ensures (a + b) * ((y - (o + u)) * k) >= x * (o + u) * p
  {
    var w := y - o - u;
    SplitTerms(a, b, x, o, u, w, k, p);
    assert y - o == w + u && y - (o + u) == w;
    MulMono(k, p, a * u);
  }

  lemma SplitTerms(a: int, b: int, x: int, o: int, u: int, w: int, k: int, p: int)
    ensures a * ((w + u) * k) == a * (w * k) + a * u * k
    ensures (x + a) * u * p == x * u * p + a * u * p
    ensures (a + b) * (w * k) == a * (w * k) + b * (w * k)
    ensures x * (o + u) * p == x * o * p + x * u * p
  {
  }
}
