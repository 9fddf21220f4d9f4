/**
 Coin sets (types/coin.go and types/dec_coin.go). `Coin` and `DecCoin` share their code up to
 the amount type, so one datatype serves both: an amount is the integer of an Int, or the raw
 integer of a Dec. The overflow limit of the amount type is a parameter where it matters.
 */
module Coins {
  import opened Arith
  import opened Text

  datatype Coin = Coin(denom: string, amount: int)

  predicate Before(c: Coin, d: Coin) { Less(c.denom, d.denom) }

  /** Strictly sorted by denom, hence without duplicates. */
  ghost predicate Sorted(cs: seq<Coin>) {
    forall i, j :: 0 <= i < j < |cs| ==> Before(cs[i], cs[j])
  }

  predicate ZeroFree(cs: seq<Coin>) {
    forall i :: 0 <= i < |cs| ==> cs[i].amount != 0
  }

  ghost predicate Canonical(cs: seq<Coin>) { Sorted(cs) && ZeroFree(cs) }

  predicate NonNegative(cs: seq<Coin>) {
    forall i :: 0 <= i < |cs| ==> cs[i].amount >= 0
  }

  /** The sum of all amounts of one denom: the meaning of a list, sorted or not. */
  function Total(cs: seq<Coin>, denom: string): int {
    if cs == [] then 0
    else (if cs[0].denom == denom then cs[0].amount else 0) + Total(cs[1..], denom)
  }

  lemma {:induction false} TotalConcat(a: seq<Coin>, b: seq<Coin>, denom: string)
    ensures Total(a + b, denom) == Total(a, denom) + Total(b, denom)
  {
    if a == [] {
      assert a + b == b;
    } else {
      assert (a + b)[1..] == a[1..] + b;
      TotalConcat(a[1..], b, denom);
    }
  }

  lemma {:induction false} TotalAbsent(cs: seq<Coin>, denom: string)
    requires forall i :: 0 <= i < |cs| ==> cs[i].denom != denom
    ensures Total(cs, denom) == 0
  {
    if cs != [] {
      TotalAbsent(cs[1..], denom);
    }
  }

  /** In a sorted list the total of a denom is the amount of its one coin. */
  lemma {:induction false} TotalAt(cs: seq<Coin>, i: nat)
    requires Sorted(cs) && i < |cs|
    ensures Total(cs, cs[i].denom) == cs[i].amount
  {
    if i == 0 {
      forall k | 0 <= k < |cs[1..]| ensures cs[1..][k].denom != cs[0].denom {
        assert Before(cs[0], cs[k + 1]);
        LessIrreflexive(cs[0].denom);
      }
      TotalAbsent(cs[1..], cs[0].denom);
    } else {
      assert Before(cs[0], cs[i]);
      LessIrreflexive(cs[0].denom);
      TotalAt(cs[1..], i - 1);
    }
  }

  lemma TotalBelowFirst(cs: seq<Coin>, denom: string)
    requires Sorted(cs)
    requires cs != [] ==> Less(denom, cs[0].denom)
    ensures Total(cs, denom) == 0
  {
    forall k | 0 <= k < |cs| ensures cs[k].denom != denom {
      if k > 0 {
        assert Before(cs[0], cs[k]);
        LessTransitive(denom, cs[0].denom, cs[k].denom);
      }
      LessIrreflexive(denom);
    }
    TotalAbsent(cs, denom);
  }

  lemma SortedTail(cs: seq<Coin>)
    requires Sorted(cs) && cs != []
    ensures Sorted(cs[1..])
  {
    var t := cs[1..];
    forall i, j | 0 <= i < j < |t| ensures Before(t[i], t[j]) {
      assert Before(cs[i + 1], cs[j + 1]);
    }
  }

  lemma SortedCons(c: Coin, cs: seq<Coin>)
    requires Sorted(cs) && forall i :: 0 <= i < |cs| ==> Before(c, cs[i])
    ensures Sorted([c] + cs)
  {
    var l := [c] + cs;
    forall i, j | 0 <= i < j < |l| ensures Before(l[i], l[j]) {
      if i > 0 {
        assert Before(cs[i - 1], cs[j - 1]);
      }
    }
  }

  ghost predicate SameTotals(a: seq<Coin>, b: seq<Coin>) {
    forall d :: Total(a, d) == Total(b, d)
  }

  /** A strictly sorted, zero-free list is determined by its amounts. */
  lemma {:induction false} CanonicalUnique(a: seq<Coin>, b: seq<Coin>)
    requires Canonical(a) && Canonical(b) && SameTotals(a, b)
    ensures a == b
    decreases |a| + |b|
  {
    if a == [] || b == [] {
      if a != [] { NotAllZero(a); }
      if b != [] { NotAllZero(b); }
    } else {
      FirstDenomNotBelow(a, b);
      FirstDenomNotBelow(b, a);
      LessTotal(a[0].denom, b[0].denom);
      TotalAt(a, 0);
      TotalAt(b, 0);
      assert Total(a, a[0].denom) == Total(b, a[0].denom);
      assert a[0] == b[0];
      SortedTail(a);
      SortedTail(b);
      forall d ensures Total(a[1..], d) == Total(b[1..], d) {
        assert Total(a, d) == Total(b, d);
      }
      CanonicalUnique(a[1..], b[1..]);
      assert a == [a[0]] + a[1..] && b == [b[0]] + b[1..];
    }
  }

  lemma NotAllZero(a: seq<Coin>)
    requires Canonical(a) && a != []
    ensures !SameTotals(a, []) && !SameTotals([], a)
  {
    TotalAt(a, 0);
    assert Total([], a[0].denom) == 0;
  }

  lemma FirstDenomNotBelow(a: seq<Coin>, b: seq<Coin>)
    requires Canonical(a) && Canonical(b) && SameTotals(a, b) && a != [] && b != []
    ensures !Less(a[0].denom, b[0].denom)
  {
    assert Total(a, a[0].denom) == Total(b, a[0].denom);
    TotalAt(a, 0);
    if Less(a[0].denom, b[0].denom) {
      TotalBelowFirst(b, a[0].denom);
    }
  }

  // ---------------------------------------------------------- zero removal

  function Keep(c: Coin): seq<Coin> {
    if c.amount == 0 then [] else [c]
  }

  function NonZero(cs: seq<Coin>): seq<Coin> {
    if cs == [] then [] else Keep(cs[0]) + NonZero(cs[1..])
  }

  lemma {:induction false} NonZeroConcat(a: seq<Coin>, b: seq<Coin>)
    ensures NonZero(a + b) == NonZero(a) + NonZero(b)
  {
    if a == [] {
      assert a + b == b;
    } else {
      assert (a + b)[1..] == a[1..] + b;
      NonZeroConcat(a[1..], b);
    }
  }

  lemma {:induction false} NonZeroOfZeroFree(cs: seq<Coin>)
    requires ZeroFree(cs)
    ensures NonZero(cs) == cs
  {
    if cs != [] {
      NonZeroOfZeroFree(cs[1..]);
      assert cs == [cs[0]] + cs[1..];
    }
  }

  lemma {:induction false} NonZeroKeepsTotals(cs: seq<Coin>, denom: string)
    ensures Total(NonZero(cs), denom) == Total(cs, denom)
  {
    if cs != [] {
      NonZeroKeepsTotals(cs[1..], denom);
      TotalConcat(Keep(cs[0]), NonZero(cs[1..]), denom);
    }
  }

  /** Every coin of l follows c. */
  ghost predicate AllAfter(c: Coin, l: seq<Coin>) {
    forall i :: 0 <= i < |l| ==> Before(c, l[i])
  }

  lemma {:induction false} NonZeroAfter(c: Coin, cs: seq<Coin>)
    requires AllAfter(c, cs)
    ensures AllAfter(c, NonZero(cs))
  {
    if cs != [] {
      assert Before(c, cs[0]);
      assert AllAfter(c, cs[1..]) by {
        forall i | 0 <= i < |cs[1..]| ensures Before(c, cs[1..][i]) { assert Before(c, cs[i + 1]); }
      }
      NonZeroAfter(c, cs[1..]);
    }
  }

  lemma {:induction false} NonZeroCanonical(cs: seq<Coin>)
    requires Sorted(cs)
    ensures Canonical(NonZero(cs))
  {
    if cs != [] {
      SortedTail(cs);
      NonZeroCanonical(cs[1..]);
      HeadBeforeTail(cs);
      NonZeroAfter(cs[0], cs[1..]);
      KeepCanonical(cs[0], NonZero(cs[1..]));
    }
  }

  lemma HeadBeforeTail(cs: seq<Coin>)
    requires Sorted(cs) && cs != []
    ensures AllAfter(cs[0], cs[1..])
  {
    forall i | 0 <= i < |cs[1..]| ensures Before(cs[0], cs[1..][i]) {
      assert Before(cs[0], cs[i + 1]);
    }
  }

  lemma KeepCanonical(c: Coin, l: seq<Coin>)
    requires Canonical(l) && AllAfter(c, l)
    ensures Canonical(Keep(c) + l)
  {
    if c.amount == 0 {
      assert Keep(c) + l == l;
    } else {
      SortedCons(c, l);
    }
  }

  /**
   `removeZeroCoins` on the slice a[lo..hi]: each zero coin is removed by shifting the rest of the
   slice left in the same backing array. The kept coins are a[lo..end]; behind them every place of the
   slice holds its old last coin. Nothing outside the slice changes, and a slice without zero coins
   does not change at all.
   */
  method RemoveZeros(a: array<Coin>, lo: nat, hi: nat) returns (end: nat)
    requires lo <= hi <= a.Length
    modifies a
    ensures lo <= end <= hi
    ensures a[lo..end] == NonZero(old(a[lo..hi]))
    ensures forall k :: end <= k < hi ==> a[k] == old(a[hi - 1])
    ensures a[..lo] == old(a[..lo]) && a[hi..] == old(a[hi..])
    ensures ZeroFree(old(a[lo..hi])) ==> a[..] == old(a[..])
  {
    hide NonZero, Shifted, Compacting;
    ghost var before := a[..];
    var i, l := lo, hi;
    assert Compacting(a[..], before, lo, i, l, hi) by { CompactingStarts(before, lo, hi); }
    while i < l
      invariant lo <= i <= l <= hi
      invariant Compacting(a[..], before, lo, i, l, hi)
      decreases l - i
    {
      if a[i].amount == 0 {
        CompactingDrops(a[..], before, lo, i, l, hi);
        ShiftLeft(a, i, l);
        l := l - 1;
      } else {
        CompactingKeeps(a[..], before, lo, i, l, hi);
        i := i + 1;
      }
    }
    CompactingEnds(a[..], before, lo, i, hi);
    end := i;
  }

  /**
   The array in the middle of the loop: coins before i are kept, the slice ends at l and still means
   what it meant, behind it is its old last coin, and nothing else has changed.
   */
  ghost predicate Compacting(s: seq<Coin>, before: seq<Coin>, lo: nat, i: nat, l: nat, hi: nat) {
    && lo <= i <= l <= hi <= |s| && |s| == |before|
    && ZeroFree(s[lo..i])
    && NonZero(s[lo..l]) == NonZero(before[lo..hi])
    && TailIs(s, if i < l then l - 1 else l, hi, before)
    && s[..lo] == before[..lo] && s[hi..] == before[hi..]
    && (ZeroFree(before[lo..hi]) ==> s == before && l == hi)
  }

  lemma CompactingStarts(before: seq<Coin>, lo: nat, hi: nat)
    requires lo <= hi <= |before|
    ensures Compacting(before, before, lo, lo, hi, hi)
  {
  }

  lemma CompactingDrops(s: seq<Coin>, before: seq<Coin>, lo: nat, i: nat, l: nat, hi: nat)
    requires Compacting(s, before, lo, i, l, hi) && i < l && s[i].amount == 0
    ensures Compacting(Shifted(s, i, l), before, lo, i, l - 1, hi)
  {
    hide NonZero;
    ShiftedMeans(s, lo, i, l, hi);
    RemoveOne(s[lo..l], i - lo);
    hide Shifted;
    assert s[lo..hi][i - lo] == s[i];
  }

  lemma CompactingKeeps(s: seq<Coin>, before: seq<Coin>, lo: nat, i: nat, l: nat, hi: nat)
    requires Compacting(s, before, lo, i, l, hi) && i < l && s[i].amount != 0
    ensures Compacting(s, before, lo, i + 1, l, hi)
  {
    hide NonZero;
    assert s[lo..i + 1] == s[lo..i] + [s[i]];
  }

  lemma CompactingEnds(s: seq<Coin>, before: seq<Coin>, lo: nat, end: nat, hi: nat)
    requires Compacting(s, before, lo, end, end, hi)
    ensures s[lo..end] == NonZero(before[lo..hi]) && TailIs(s, end, hi, before)
    ensures s[..lo] == before[..lo] && s[hi..] == before[hi..]
    ensures ZeroFree(before[lo..hi]) ==> s == before
  {
    hide NonZero;
    NonZeroOfZeroFree(s[lo..end]);
  }

  /** From index k on, the slice holds what was its last coin. */
  ghost predicate TailIs(s: seq<Coin>, k: int, hi: nat, before: seq<Coin>) {
    |s| == |before| && hi <= |s| && forall j :: 0 <= k <= j < hi ==> s[j] == before[hi - 1]
  }

  function Shifted(s: seq<Coin>, i: nat, l: nat): (r: seq<Coin>)
    requires i < l <= |s|
    ensures |r| == |s|
  {
    s[..i] + s[i + 1..l] + s[l - 1..]
  }

  /** append(coins[:i], coins[i+1:]...) on a slice that ends at l. */
  method ShiftLeft(a: array<Coin>, i: nat, l: nat)
    requires i < l <= a.Length
    modifies a
    ensures a[..] == Shifted(old(a[..]), i, l)
  {
    forall k | i <= k < l - 1 { a[k] := a[k + 1]; }
  }

  lemma ShiftedMeans(s: seq<Coin>, lo: nat, i: nat, l: nat, hi: nat)
    requires lo <= i < l <= hi <= |s|
    ensures var r := Shifted(s, i, l);
            && r[..lo] == s[..lo] && r[hi..] == s[hi..] && r[lo..i] == s[lo..i]
            && r[lo..l - 1] == s[lo..l][..i - lo] + s[lo..l][i - lo + 1..]
            && (forall k :: l - 1 <= k < hi ==> r[k] == s[k])
            && (i < l - 1 ==> r[l - 2] == s[l - 1])
  {
  }

  lemma RemoveOne(cs: seq<Coin>, k: nat)
    requires k < |cs| && cs[k].amount == 0
    ensures NonZero(cs[..k] + cs[k + 1..]) == NonZero(cs)
  {
    hide NonZero;
    var l, r := cs[..k], cs[k + 1..];
    NonZeroConcat(l, r);
    NonZeroConcat(l, [cs[k]] + r);
    SkipZero(cs[k], r);
    assert cs == l + ([cs[k]] + r);
  }

  lemma SkipZero(c: Coin, r: seq<Coin>)
    requires c.amount == 0
    ensures NonZero([c] + r) == NonZero(r)
  {
    assert ([c] + r)[1..] == r;
  }
}
