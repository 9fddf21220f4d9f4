/**
 When `TruncateDecimal` (types/dec_coin.go) returns: its result is built coin by coin with `safeAdd`,
 whose overflow check looks at running totals.
 */
module Truncation {
  import opened Arith
  import opened Text
  import opened Coins
  import opened CoinSets
  import opened CoinRules
  import Decimals

  /** Adding coins one at a time, zero coins left out. */
  function AddEach(acc: seq<Coin>, cs: seq<Coin>, limit: int): Option<seq<Coin>>
    decreases |cs|
  {
    if cs == [] then Some(acc)
    else
      var t :- AddNonZero(acc, cs[0], limit);
      AddEach(t, cs[1..], limit)
  }

  ghost predicate TotalsBelow(cs: seq<Coin>, limit: int) {
    forall d :: Total(cs, d) < limit
  }

  ghost predicate AmountsBelow(cs: seq<Coin>, limit: int) {
    forall i :: 0 <= i < |cs| ==> 0 <= cs[i].amount < limit
  }

  ghost predicate Accumulated(acc: seq<Coin>, limit: int) {
    Canonical(acc) && AllPositive(acc) && TotalsBelow(acc, limit)
  }

  /** Adding one coin fits exactly when the new total of its denom does. */
  lemma AddOneIff(acc: seq<Coin>, c: Coin, limit: int)
    requires Accumulated(acc, limit) && 0 <= c.amount < limit
    ensures AddNonZero(acc, c, limit).Some? <==> Total(acc, c.denom) + c.amount < limit
    ensures AddNonZero(acc, c, limit).Some? ==>
              var t := AddNonZero(acc, c, limit).value;
              Accumulated(t, limit) && forall d :: Total(t, d) == Total(acc, d) + Total([c], d)
  {
    hide Merge, Fits, Total, Less;
    if c.amount == 0 {
      SingleAll(c);
    } else {
      FitsIff(acc, [c], limit);
      OneFits(acc, c, limit);
      if AllFit(acc, [c], limit) {
        AddNonZeroMeans(acc, c, limit, Merge(acc, [c]));
        StaysAccumulated(acc, c, limit, Merge(acc, [c]));
      }
    }
  }

  lemma SingleAll(c: Coin)
    requires c.amount == 0
    ensures forall d :: Total([c], d) == 0
  {
    forall d ensures Total([c], d) == 0 { SingleTotal(c, d); }
  }

  lemma OneFits(acc: seq<Coin>, c: Coin, limit: int)
    requires Accumulated(acc, limit) && 0 <= c.amount < limit
    ensures AllFit(acc, [c], limit) <==> Total(acc, c.denom) + c.amount < limit
  {
    if exists i :: 0 <= i < |acc| && acc[i].denom == c.denom {
      var i :| 0 <= i < |acc| && acc[i].denom == c.denom;
      TotalAt(acc, i);
      assert [c][0].denom == acc[i].denom;
      forall k | 0 <= k < |acc| && acc[k].denom == c.denom ensures acc[k].amount == acc[i].amount {
        TotalAt(acc, k);
      }
    } else {
      TotalAbsent(acc, c.denom);
    }
  }

  lemma StaysAccumulated(acc: seq<Coin>, c: Coin, limit: int, t: seq<Coin>)
    requires Accumulated(acc, limit) && 0 < c.amount && Total(acc, c.denom) + c.amount < limit
    requires Canonical(t) && forall d :: Total(t, d) == Total(acc, d) + Total([c], d)
    ensures Accumulated(t, limit)
  {
    hide Canonical, Total;
    forall d ensures Total(t, d) < limit {
      SingleTotal(c, d);
    }
    forall i | 0 <= i < |t| ensures t[i].amount > 0 {
      CanonicalAmount(t, i);
      SingleTotal(c, t[i].denom);
      TotalNonNegative(acc, t[i].denom);
    }
  }

  lemma CanonicalAmount(t: seq<Coin>, i: nat)
    requires Canonical(t) && i < |t|
    ensures Total(t, t[i].denom) == t[i].amount != 0
  {
    TotalAt(t, i);
  }

  lemma ConsTotal(cs: seq<Coin>, d: string)
    requires cs != []
    ensures Total(cs, d) == Total([cs[0]], d) + Total(cs[1..], d)
  {
    SingleTotal(cs[0], d);
  }

  ghost predicate BothBelow(a: seq<Coin>, b: seq<Coin>, limit: int) {
    forall d :: Total(a, d) + Total(b, d) < limit
  }

  lemma SameSums(a: seq<Coin>, b: seq<Coin>, x: seq<Coin>, y: seq<Coin>, limit: int)
    requires forall d :: Total(a, d) + Total(b, d) == Total(x, d) + Total(y, d)
    ensures BothBelow(a, b, limit) <==> BothBelow(x, y, limit)
  {
    hide Total;
    if BothBelow(a, b, limit) {
      forall d ensures Total(x, d) + Total(y, d) < limit { assert Total(a, d) + Total(b, d) < limit; }
    }
    if BothBelow(x, y, limit) {
      forall d ensures Total(a, d) + Total(b, d) < limit { assert Total(x, d) + Total(y, d) < limit; }
    }
  }

  /** The running totals only grow, so adding all coins fits exactly when the grand totals do. */
  lemma {:induction false} AddEachIff(acc: seq<Coin>, cs: seq<Coin>, limit: int)
    requires Accumulated(acc, limit) && AmountsBelow(cs, limit)
    ensures AddEach(acc, cs, limit).Some? <==> BothBelow(acc, cs, limit)
    decreases |cs|
  {
    hide AddNonZero, Total, Accumulated;
    if cs == [] {
      NoTotals(acc, limit);
    } else {
      var c, rest := cs[0], cs[1..];
      AddOneIff(acc, c, limit);
      forall d ensures Total(cs, d) == Total([c], d) + Total(rest, d) { ConsTotal(cs, d); }
      var t := AddNonZero(acc, c, limit);
      if t.Some? {
        AddEachIff(t.value, rest, limit);
        SameSums(t.value, rest, acc, cs, limit);
      } else {
        SingleTotal(c, c.denom);
        TotalNonNegative(rest, c.denom);
        assert Total(acc, c.denom) + Total(cs, c.denom) >= limit;
      }
    }
  }

  lemma NoTotals(acc: seq<Coin>, limit: int)
    requires Accumulated(acc, limit)
    ensures BothBelow(acc, [], limit)
  {
    forall d ensures Total(acc, d) + Total([], d) < limit {
      assert Total(acc, d) < limit && Total([], d) == 0;
    }
  }

  lemma AddAllIff(cs: seq<Coin>, limit: int)
    requires limit > 0 && AmountsBelow(cs, limit)
    ensures AddEach([], cs, limit).Some? <==> TotalsBelow(cs, limit)
  {
    forall d ensures Total([], d) == 0 { }
    hide AddEach;
    AddEachIff([], cs, limit);
  }

  // -------------------------------------------------------------- both results

  predicate AllSplit(cs: seq<Coin>) {
    forall i :: 0 <= i < |cs| ==> TruncateCoin(cs[i]).Some?
  }

  function Wholes(cs: seq<Coin>): seq<Coin>
    requires AllSplit(cs)
  {
    if cs == [] then [] else [TruncateCoin(cs[0]).value.truncated] + Wholes(cs[1..])
  }

  function Changes(cs: seq<Coin>): seq<Coin>
    requires AllSplit(cs)
  {
    if cs == [] then [] else [TruncateCoin(cs[0]).value.change] + Changes(cs[1..])
  }

  /** The loop is two independent accumulations. */
  lemma {:induction false} TruncateIsTwoSums(acc: Splits, cs: seq<Coin>)
    ensures TruncateFrom(acc, cs).Some? <==>
              && AllSplit(cs)
              && AddEach(acc.truncated, Wholes(cs), INT_LIMIT).Some?
              && AddEach(acc.change, Changes(cs), DEC_LIMIT).Some?
    decreases |cs|
  {
    hide TruncateCoin, AddNonZero;
    if cs != [] && TruncateCoin(cs[0]).Some? {
      var s, rest := TruncateCoin(cs[0]).value, cs[1..];
      assert AllSplit(cs) <==> AllSplit(rest) by {
        if AllSplit(rest) {
          forall i | 0 <= i < |cs| ensures TruncateCoin(cs[i]).Some? {
            if i > 0 { assert TruncateCoin(rest[i - 1]).Some?; }
          }
        }
      }
      if AllSplit(rest) {
        assert Wholes(cs)[0] == s.truncated && Wholes(cs)[1..] == Wholes(rest);
        assert Changes(cs)[0] == s.change && Changes(cs)[1..] == Changes(rest);
      }
      var t := AddNonZero(acc.truncated, s.truncated, INT_LIMIT);
      var h := AddNonZero(acc.change, s.change, DEC_LIMIT);
      if t.Some? && h.Some? {
        TruncateIsTwoSums(Splits(t.value, h.value), rest);
      }
    }
  }

  ghost predicate AllDecs(cs: seq<Coin>) {
    forall i :: 0 <= i < |cs| ==> Abs(cs[i].amount) < DEC_LIMIT
  }

  lemma {:induction false} PartsBelow(cs: seq<Coin>)
    requires AllSplit(cs) && AllDecs(cs)
    ensures AmountsBelow(Wholes(cs), INT_LIMIT) && AmountsBelow(Changes(cs), DEC_LIMIT)
  {
    hide TruncateCoin;
    if cs != [] {
      PartsBelow(cs[1..]);
      SplitBelow(cs[0]);
    }
  }

  lemma SplitBelow(c: Coin)
    requires TruncateCoin(c).Some? && Abs(c.amount) < DEC_LIMIT
    ensures 0 <= TruncateCoin(c).value.truncated.amount < INT_LIMIT
    ensures 0 <= TruncateCoin(c).value.change.amount < DEC_LIMIT
  {
    Decimals.OneIsPowerOfTen();
    TruncateCoinIff(c);
  }

  /**
   `TruncateDecimal` returns exactly when every coin has a well-formed denom, a non-negative amount and
   a whole part that is an Int, and no denom's whole parts or changes add up beyond their types.
   */
  lemma TruncateReturnsIff(cs: seq<Coin>)
    requires AllDecs(cs)
    ensures TruncateFrom(Splits([], []), cs).Some? <==>
              && (forall i :: 0 <= i < |cs| ==> ValidDenom(cs[i].denom) && 0 <= cs[i].amount < INT_LIMIT * ONE)
              && AllSplit(cs)
              && TotalsBelow(Wholes(cs), INT_LIMIT) && TotalsBelow(Changes(cs), DEC_LIMIT)
  {
    hide TruncateCoin, TruncateFrom, ValidDenom, Total, AddEach, TotalsBelow, AmountsBelow, Wholes, Changes;
    forall i | 0 <= i < |cs| ensures TruncateCoin(cs[i]).Some? <==> ValidDenom(cs[i].denom) && 0 <= cs[i].amount < INT_LIMIT * ONE {
      TruncateCoinIff(cs[i]);
    }
    TruncateIsTwoSums(Splits([], []), cs);
    if AllSplit(cs) {
      PartsBelow(cs);
      AddAllIff(Wholes(cs), INT_LIMIT);
      AddAllIff(Changes(cs), DEC_LIMIT);
    }
  }

  /** A sorted set of non-negative amounts in range never makes `TruncateDecimal` panic. */
  lemma SortedTruncates(cs: seq<Coin>)
    requires Sorted(cs) && forall i :: 0 <= i < |cs| ==> ValidDenom(cs[i].denom) && 0 <= cs[i].amount < INT_LIMIT * ONE
    ensures TruncateFrom(Splits([], []), cs).Some?
  {
    hide TruncateCoin, TruncateFrom, ValidDenom, Total;
    Decimals.OneIsPowerOfTen();
    forall i | 0 <= i < |cs| ensures TruncateCoin(cs[i]).Some? {
      TruncateCoinIff(cs[i]);
    }
    PartsBelow(cs);
    forall d ensures Total(Wholes(cs), d) < INT_LIMIT && Total(Changes(cs), d) < DEC_LIMIT {
      SortedParts(cs, d);
    }
    TruncateReturnsIff(cs);
  }

  /** With each denom at most once, a total is a single coin's part. */
  lemma {:induction false} SortedParts(cs: seq<Coin>, d: string)
    requires Sorted(cs) && AllSplit(cs) && AllDecs(cs)
    ensures Total(Wholes(cs), d) < INT_LIMIT && Total(Changes(cs), d) < DEC_LIMIT
    ensures (forall i :: 0 <= i < |cs| ==> cs[i].denom != d) ==> Total(Wholes(cs), d) == 0 == Total(Changes(cs), d)
  {
    hide TruncateCoin;
    if cs != [] {
      SortedTail(cs);
      SortedParts(cs[1..], d);
      SplitBelow(cs[0]);
      TruncateCoinIff(cs[0]);
      if cs[0].denom == d {
        forall i | 0 <= i < |cs[1..]| ensures cs[1..][i].denom != d {
          assert Before(cs[0], cs[i + 1]);
          LessIrreflexive(d);
        }
      }
    }
  }
}
