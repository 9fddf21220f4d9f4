/**
 Conversion between a token's smallest unit and its main unit (types/coin_type.go, types/token.go).
 */
module CoinTypes {
  import opened Arith
  import opened Text
  import opened Coins
  import CoinRules
  import D = Decimals
  import Ints
  import DecPower

  const ONE: int := D.ONE

  datatype Token = Token(symbol: string, scale: nat, minUnit: string)

  datatype Unit = Unit(denom: string, scale: nat)

  datatype CoinType = CoinType(minUnit: Unit, mainUnit: Unit)

  /** The scale is cut to eight bits; the main unit always has scale 0. */
  function GetCoinType(t: Token): CoinType {
    CoinType(Unit(t.minUnit, t.scale % 256), Unit(t.symbol, 0))
  }

  function ScaleFactor(u: Unit): Option<int> { Ints.WithDecimal(1, u.scale) }

  predicate IsUnit(u: Unit, name: string) { u.denom == TrimSpace(name) }

  predicate HasUnit(ct: CoinType, name: string) { IsUnit(ct.mainUnit, name) || IsUnit(ct.minUnit, name) }

  function Convert(amount: int, from: Unit, to: Unit): Option<int> {
    var dst :- ScaleFactor(to);
    var src :- ScaleFactor(from);
    var m :- D.Mul(amount, dst * ONE);
    D.Div(m, src * ONE)
  }

  /** A Coin of the smallest unit as a DecCoin of the main unit. A coin of the main unit becomes the empty DecCoin. */
  function ToMainCoin(ct: CoinType, coin: Coin): Option<Coin> {
    if !HasUnit(ct, coin.denom) then Some(Coin(coin.denom, coin.amount * ONE))
    else if IsUnit(ct.mainUnit, coin.denom) then Some(Coin("", 0))
    else
      var amt :- Convert(coin.amount * ONE, ct.minUnit, ct.mainUnit);
      if !ValidDenom(ct.mainUnit.denom) || amt < 0 then None else Some(Coin(ct.mainUnit.denom, amt))
  }

  /** A DecCoin of the main unit as a Coin of the smallest unit. */
  function ToMinCoin(ct: CoinType, coin: Coin): Option<Coin> {
    if !HasUnit(ct, coin.denom) then
      var t :- D.TruncateInt(coin.amount);
      Some(Coin(coin.denom, t))
    else if IsUnit(ct.minUnit, coin.denom) then
      var s :- CoinRules.TruncateCoin(coin);
      Some(s.truncated)
    else
      var amt :- Convert(coin.amount, ct.mainUnit, ct.minUnit);
      var n :- D.RoundInt(amt);
      if !ValidDenom(ct.minUnit.denom) || n < 0 then None else Some(Coin(ct.minUnit.denom, n))
  }

  function ThereAndBack(ct: CoinType, coin: Coin): Option<Coin> {
    var c :- ToMainCoin(ct, coin);
    ToMinCoin(ct, c)
  }

  // ------------------------------------------------------------- arithmetic

  lemma CancelFactor(n: nat, f: int, p: int)
    requires f > 0 && p > 0
    ensures f * p > 0 && n * p / (f * p) == n / f
  {
    assert f * p > 0;
    var q := n / f;
    FloorLeast(n, f, q);
    FloorLeast(n, f, q + 1);
    AtLeast(n, f, p, q);
    AtLeast(n, f, p, q + 1);
  }

  lemma CancelIff(x: int, y: int, p: int)
    requires p > 0
    ensures x * p <= y * p <==> x <= y
  {
  }

  lemma AtLeast(n: nat, f: int, p: int, q: int)
    requires f > 0 && p > 0 && f * p > 0
    ensures q <= n * p / (f * p) <==> q * f <= n
  {
    FloorLeast(n * p, f * p, q);
    assert q * (f * p) == q * f * p;
    CancelIff(q * f, n, p);
  }

  /** Dividing one whole Dec by another scales the dividend once. */
  lemma WholeQuotient(x: nat, f: int)
    requires f > 0
    ensures f * ONE > 0 && D.Scaled(x * ONE, f * ONE) == x * ONE * ONE / f
  {
    var n := x * ONE * ONE;
    CancelFactor(n, f, ONE);
    assert x * ONE * ONE * ONE == n * ONE;
  }

  lemma InDecRange(a: int)
    requires 0 <= a < INT_LIMIT
    ensures D.Checked(a * ONE) == Some(a * ONE)
  {
    D.OneIsPowerOfTen();
  }

  lemma ConvertToMain(a: nat, f: int, s: nat)
    requires a < INT_LIMIT && f == Pow(10, s) && 0 < f < INT_LIMIT
    ensures Convert(a * ONE, Unit("", s), Unit("", 0)) == D.Checked(D.NearestEven(a * ONE * ONE / f))
  {
    assert Pow(10, 0) == 1;
    hide Pow;
    DecPower.MulWhole(a, 1);
    InDecRange(a);
    WholeQuotient(a, f);
  }

  lemma ConvertToMin(q: nat, f: int, s: nat)
    requires f == Pow(10, s) && 0 < f < INT_LIMIT
    ensures Convert(q, Unit("", 0), Unit("", s)) == D.Checked(q * f)
  {
    assert Pow(10, 0) == 1;
    hide Pow;
    assert q * (f * ONE) == q * f * ONE;
    D.NearestEvenExact(q * f);
    var m := q * f;
    assert D.Scaled(m, ONE) == m * ONE by {
      assert m * ONE * ONE == m * ONE * ONE;
      CancelFactor(m * ONE, 1, ONE);
    }
  }

  /** What a conversion there and back does to an amount, whatever the scale. */
  function RoundTripAmount(a: nat, f: int): Option<int>
    requires f > 0
  {
    var q :- D.Checked(D.NearestEven(a * ONE * ONE / f));
    var m :- D.Checked(q * f);
    D.RoundInt(m)
  }

  lemma RoundTripSmallScale(a: nat, f: int, g: int)
    requires a < INT_LIMIT && f > 0 && g > 0 && f * g == ONE
    ensures RoundTripAmount(a, f) == Some(a)
  {
    assert a * ONE * ONE == a * g * ONE * f;
    CancelFactor(a * g * ONE, 1, f);
    D.NearestEvenExact(a * g);
    InDecRange(a);
    assert a * g * f == a * ONE;
    MulMono(g, ONE, a);
    assert a * g <= a * ONE by { MulMono(1, f, g); assert f * g == ONE; }
    D.NearestEvenExact(a);
  }

  lemma RoundTripLargeScale(a: nat, f: int, h: int)
    requires a < INT_LIMIT && h > 0 && f == ONE * h
    ensures RoundTripAmount(a, f) == Some(a) <==> a % h == 0
  {
    assert a * ONE * ONE == a * ONE * ONE;
    CancelFactor(a * ONE, h, ONE);
    assert ONE * h == h * ONE;
    var q := D.NearestEven(a * ONE / h);
    assert q * f == q * h * ONE;
    D.NearestEvenExact(q * h);
    if a % h == 0 {
      var c := a / h;
      assert a == c * h;
      assert a * ONE == c * ONE * h;
      CancelFactor(c * ONE, 1, h);
      D.NearestEvenExact(c);
      InDecRange(a);
      assert q == c && 0 <= c <= a by { MulMono(1, h, c); }
    } else if RoundTripAmount(a, f) == Some(a) {
      assert a == q * h;
      MultipleHasNoRemainder(q, h);
    }
  }

  lemma MultipleHasNoRemainder(q: int, h: int)
    requires h > 0
    ensures q * h % h == 0
  {
    DivModUnique(q * h, h, q, 0);
  }

  lemma MainAmount(t: Token, a: nat, f: int)
    requires a < INT_LIMIT && ValidDenom(t.minUnit) && ValidDenom(t.symbol) && t.minUnit != t.symbol
    requires f == Pow(10, t.scale % 256) && 0 < f < INT_LIMIT
    ensures var q := D.NearestEven(a * ONE * ONE / f);
            && q >= 0
            && ToMainCoin(GetCoinType(t), Coin(t.minUnit, a)) ==
                 if D.Checked(q).None? then None else Some(Coin(t.symbol, q))
  {
    DenomIsTrimmed(t.minUnit);
    hide Pow, ValidDenom, TrimSpace, Convert;
    var q := D.NearestEven(a * ONE * ONE / f);
    ConvertToMain(a, f, t.scale % 256);
    ConvertIgnoresDenoms(a * ONE, Unit(t.minUnit, t.scale % 256), Unit(t.symbol, 0));
    assert q >= 0 by { FloorLeast(a * ONE * ONE, f, 0); }
  }

  lemma MinAmount(t: Token, q: nat, f: int)
    requires ValidDenom(t.minUnit) && ValidDenom(t.symbol) && t.minUnit != t.symbol
    requires f == Pow(10, t.scale % 256) && 0 < f < INT_LIMIT
    ensures q * f >= 0
    ensures var m := D.Checked(q * f);
            var n := if m.None? then None else D.RoundInt(m.value);
            ToMinCoin(GetCoinType(t), Coin(t.symbol, q)) == if n.None? then None else Some(Coin(t.minUnit, n.value))
  {
    hide Pow, ValidDenom, TrimSpace, Convert, D.RoundInt, D.Checked;
    DenomIsTrimmed(t.symbol);
    ProductNonNegative(q, f);
    ConvertToMin(q, f, t.scale % 256);
    ConvertIgnoresDenoms(q, Unit(t.symbol, 0), Unit(t.minUnit, t.scale % 256));
    RoundsNonNegative(q * f);
  }

  lemma ProductNonNegative(q: nat, f: nat)
    ensures q * f >= 0
  {
  }

  lemma RoundsNonNegative(m: nat)
    ensures D.Checked(m).Some? ==> D.Checked(m).value == m
    ensures D.RoundInt(m).Some? ==> D.RoundInt(m).value >= 0
  {
  }

  lemma ConvertIgnoresDenoms(amount: int, from: Unit, to: Unit)
    ensures Convert(amount, from, to) == Convert(amount, Unit("", from.scale), Unit("", to.scale))
  {
    hide Pow;
  }

  lemma ThereAndBackAmount(t: Token, a: nat, f: int)
    requires a < INT_LIMIT && ValidDenom(t.minUnit) && ValidDenom(t.symbol) && t.minUnit != t.symbol
    requires f == Pow(10, t.scale % 256) && 0 < f < INT_LIMIT
    ensures var r := RoundTripAmount(a, f);
            ThereAndBack(GetCoinType(t), Coin(t.minUnit, a)) == if r.None? then None else Some(Coin(t.minUnit, r.value))
  {
    hide Pow, ValidDenom, ToMainCoin, ToMinCoin, D.NearestEven;
    MainAmount(t, a, f);
    MinAmount(t, D.NearestEven(a * ONE * ONE / f), f);
  }

  /** The amount is a whole number of 10^-18 main units: always so for scales up to 18. */
  predicate WholeEighteenths(t: Token, a: nat) {
    var s := t.scale % 256;
    s <= 18 || a % PowerOfTen(s - 18) == 0
  }

  function PowerOfTen(k: nat): (p: int)
    ensures p == Pow(10, k) > 0
  {
    PowPositive(10, k);
    Pow(10, k)
  }

  /**
   Converting an amount of the smallest unit to the main unit and back returns the same coin, and
   no overflow check fires, exactly when ten to the scale is an Int and the scale is at most 18 or the
   amount has no digits below the eighteenth decimal of the main unit.
   */
  lemma ConversionLosslessIff(t: Token, a: nat)
    requires a < INT_LIMIT && ValidDenom(t.minUnit) && ValidDenom(t.symbol) && t.minUnit != t.symbol
    ensures ThereAndBack(GetCoinType(t), Coin(t.minUnit, a)) == Some(Coin(t.minUnit, a))
       <==> Pow(10, t.scale % 256) < INT_LIMIT && WholeEighteenths(t, a)
  {
    var s := t.scale % 256;
    hide ValidDenom, ThereAndBack, RoundTripAmount, Pow, INT_LIMIT, GetCoinType;
    PowPositive(10, s);
    if Pow(10, s) >= INT_LIMIT {
      ScaleTooLarge(t, a);
    } else {
      ThereAndBackAmount(t, a, Pow(10, s));
      if s <= 18 {
        LosslessSmall(a, s);
      } else {
        LosslessLargeIff(a, s);
      }
    }
  }

  lemma ScaleTooLarge(t: Token, a: nat)
    requires ValidDenom(t.minUnit) && t.minUnit != t.symbol && Pow(10, t.scale % 256) >= INT_LIMIT
    ensures ThereAndBack(GetCoinType(t), Coin(t.minUnit, a)).None?
  {
    DenomIsTrimmed(t.minUnit);
    hide Pow, ValidDenom, TrimSpace, D.Mul, D.Div;
  }

  /** One of a token with 19 decimals is lost. */
  lemma ConversionCanLose(symbol: string, minUnit: string)
    requires ValidDenom(minUnit) && ValidDenom(symbol) && minUnit != symbol
    ensures var one := Coin(minUnit, 1);
            ThereAndBack(GetCoinType(Token(symbol, 19, minUnit)), one) != Some(one)
  {
    hide ValidDenom, ThereAndBack, GetCoinType, Pow;
    ConversionLosslessIff(Token(symbol, 19, minUnit), 1);
    OneIsNotWhole(Token(symbol, 19, minUnit));
  }

  lemma OneIsNotWhole(t: Token)
    requires t.scale == 19
    ensures !WholeEighteenths(t, 1)
  {
    assert Pow(10, 0) == 1 && Pow(10, 1) == 10;
  }

  /** With 77 decimals not even nothing can be converted: ten to the scale is no Int. */
  lemma ConversionCanPanic(symbol: string, minUnit: string)
    requires ValidDenom(minUnit) && minUnit != symbol
    ensures ThereAndBack(GetCoinType(Token(symbol, 77, minUnit)), Coin(minUnit, 0)).None?
  {
    hide ValidDenom, ThereAndBack, GetCoinType, Pow;
    TenToTheSeventySeven();
    ScaleTooLarge(Token(symbol, 77, minUnit), 0);
  }

  lemma TenToTheSeventySeven()
    ensures Pow(10, 77) >= INT_LIMIT
  {
    D.OneIsPowerOfTen();
    PowAdds(10, 18, 18);
    PowAdds(10, 36, 36);
    PowAdds(10, 72, 5);
    assert Pow(10, 5) == 100000;
  }

  lemma LosslessSmall(a: nat, s: nat)
    requires a < INT_LIMIT && s <= 18 && Pow(10, s) < INT_LIMIT
    ensures Pow(10, s) > 0 && RoundTripAmount(a, Pow(10, s)) == Some(a)
  {
    hide RoundTripAmount, Pow;
    D.OneIsPowerOfTen();
    PowAdds(10, s, 18 - s);
    PowPositive(10, s);
    PowPositive(10, 18 - s);
    RoundTripSmallScale(a, Pow(10, s), Pow(10, 18 - s));
  }

  lemma LosslessLargeIff(a: nat, s: nat)
    requires a < INT_LIMIT && s > 18 && Pow(10, s) < INT_LIMIT
    ensures Pow(10, s) > 0 && (RoundTripAmount(a, Pow(10, s)) == Some(a) <==> a % PowerOfTen(s - 18) == 0)
  {
    hide RoundTripAmount, Pow;
    D.OneIsPowerOfTen();
    PowAdds(10, 18, s - 18);
    PowPositive(10, s);
    PowPositive(10, s - 18);
    RoundTripLargeScale(a, Pow(10, s), Pow(10, s - 18));
  }

  // --------------------------------------------------------- the other branches

  /**
   A DecCoin that is in the smallest unit already becomes its whole part. That succeeds exactly for a denom
   of the pattern and an amount that is not negative and has an Int as its whole part.
   */
  lemma SmallestUnitIff(ct: CoinType, coin: Coin, r: Coin)
    requires IsUnit(ct.minUnit, coin.denom) && Abs(coin.amount) < DEC_LIMIT
    ensures ToMinCoin(ct, coin) == Some(r) <==>
              && r.denom == coin.denom && ValidDenom(coin.denom)
              && 0 <= r.amount < INT_LIMIT && r.amount * ONE <= coin.amount < (r.amount + 1) * ONE
  {
    hide ValidDenom, TrimSpace, CoinRules.TruncateCoin, INT_LIMIT;
    CoinRules.TruncateCoinIff(coin);
    WholePart(coin.amount, r.amount);
  }

  lemma WholePart(x: int, q: int)
    ensures q * ONE <= x < (q + 1) * ONE <==> q == x / ONE
  {
  }

  /** A DecCoin in an unknown unit keeps its denom, and its amount is truncated towards zero; it must be an Int. */
  lemma UnknownUnitIff(ct: CoinType, coin: Coin, r: Coin)
    requires !HasUnit(ct, coin.denom)
    ensures ToMinCoin(ct, coin) == Some(r) <==>
              r.denom == coin.denom && D.IsTruncation(coin.amount, r.amount) && Abs(r.amount) < INT_LIMIT
  {
    hide TrimSpace, D.IsTruncation, Quo;
    D.TruncationIff(coin.amount, r.amount);
  }

  /** A Coin in an unknown unit comes back from a conversion there and back, whatever its sign. */
  lemma UnknownUnitComesBack(ct: CoinType, coin: Coin)
    requires !HasUnit(ct, coin.denom) && Abs(coin.amount) < INT_LIMIT
    ensures ThereAndBack(ct, coin) == Some(coin)
  {
    hide TrimSpace, ToMinCoin;
    UnknownUnitIff(ct, Coin(coin.denom, coin.amount * ONE), coin);
  }

  /** A Coin that is in the main unit already is lost: it becomes nothing of no denom. */
  lemma MainUnitIsLost(ct: CoinType, coin: Coin)
    requires IsUnit(ct.mainUnit, coin.denom) && !HasUnit(ct, "")
    ensures ThereAndBack(ct, coin) == Some(Coin("", 0))
  {
    hide TrimSpace, ToMinCoin;
    UnknownUnitIff(ct, Coin("", 0), Coin("", 0));
  }
}
