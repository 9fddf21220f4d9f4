/**
 Arithmetic on coin sets: `safeAdd`, `SafeSub`, `Intersect`, `AmountOf`, and the algebra they obey.
 */
module CoinSets {
  import opened Arith
  import opened Text
  import opened Coins

  // ----------------------------------------------------------------- lookup

  /** The recursive binary search behind `AmountOf`. */
  function Search(cs: seq<Coin>, denom: string): int
    decreases |cs|
  {
    if cs == [] then 0
    else if |cs| == 1 then (if cs[0].denom == denom then cs[0].amount else 0)
    else
      var mid := |cs| / 2;
      if Less(denom, cs[mid].denom) then Search(cs[..mid], denom)
      else if denom == cs[mid].denom then cs[mid].amount
      else Search(cs[mid + 1..], denom)
  }

  /** `AmountOf` panics on a malformed denom. */
  function AmountOf(cs: seq<Coin>, denom: string): Option<int> {
    if ValidDenom(denom) then Some(Search(cs, denom)) else None
  }

  lemma SortedSlice(cs: seq<Coin>, lo: nat, hi: nat)
    requires Sorted(cs) && lo <= hi <= |cs|
    ensures Sorted(cs[lo..hi])
  {
    var s := cs[lo..hi];
    forall i, j | 0 <= i < j < |s| ensures Before(s[i], s[j]) {
      assert Before(cs[lo + i], cs[lo + j]);
    }
  }

  lemma TotalAboveLast(cs: seq<Coin>, k: nat, denom: string)
    requires Sorted(cs) && k < |cs| && (denom == cs[k].denom || Less(cs[k].denom, denom))
    ensures Total(cs[..k], denom) == 0
  {
    forall i | 0 <= i < k ensures cs[..k][i].denom != denom {
      assert Before(cs[i], cs[k]);
      if denom != cs[k].denom { LessTransitive(cs[i].denom, cs[k].denom, denom); }
      LessIrreflexive(denom);
    }
    TotalAbsent(cs[..k], denom);
  }

  /** On a sorted list the binary search finds what a full scan finds. */
  lemma {:induction false} SearchIsTotal(cs: seq<Coin>, denom: string)
    requires Sorted(cs)
    ensures Search(cs, denom) == Total(cs, denom)
    decreases |cs|
  {
    hide Less;
    if |cs| > 1 {
      hide Total;
      var mid := |cs| / 2;
      SplitTotal(cs, mid, denom);
      if Less(denom, cs[mid].denom) {
        SearchIsTotal(cs[..mid], denom);
        TotalBelowFirst(cs[mid..], denom);
      } else if denom == cs[mid].denom {
        TotalAt(cs, mid);
      } else {
        LessTotal(denom, cs[mid].denom);
        TotalAboveLast(cs, mid, denom);
        SearchIsTotal(cs[mid + 1..], denom);
      }
    }
  }

  lemma SplitTotal(cs: seq<Coin>, mid: nat, denom: string)
    requires Sorted(cs) && mid < |cs|
    ensures Sorted(cs[..mid]) && Sorted(cs[mid..]) && Sorted(cs[mid + 1..])
    ensures Total(cs, denom) == Total(cs[..mid], denom) + Total(cs[mid..], denom)
    ensures denom != cs[mid].denom ==> Total(cs[mid..], denom) == Total(cs[mid + 1..], denom)
  {
    SortedSlice(cs, 0, mid);
    SortedSlice(cs, mid, |cs|);
    SortedSlice(cs, mid + 1, |cs|);
    assert cs[0..mid] == cs[..mid] && cs[mid..|cs|] == cs[mid..] && cs[mid + 1..|cs|] == cs[mid + 1..];
    assert cs == cs[..mid] + cs[mid..];
    TotalConcat(cs[..mid], cs[mid..], denom);
    assert cs[mid..][1..] == cs[mid + 1..];
  }

  // ------------------------------------------------------------------ merge

  /** The two-pointer merge of `safeAdd`, without its overflow check. */
  function Merge(a: seq<Coin>, b: seq<Coin>): seq<Coin>
    decreases |a| + |b|
  {
    if a == [] then NonZero(b)
    else if b == [] then NonZero(a)
    else if Before(a[0], b[0]) then Keep(a[0]) + Merge(a[1..], b)
    else if a[0].denom == b[0].denom then
      Keep(Coin(a[0].denom, a[0].amount + b[0].amount)) + Merge(a[1..], b[1..])
    else Keep(b[0]) + Merge(a, b[1..])
  }

  /** No sum that the merge computes reaches the limit of the amount type. */
  predicate Fits(a: seq<Coin>, b: seq<Coin>, limit: int)
    decreases |a| + |b|
  {
    if a == [] || b == [] then true
    else if Before(a[0], b[0]) then Fits(a[1..], b, limit)
    else if a[0].denom == b[0].denom then
      Abs(a[0].amount + b[0].amount) < limit && Fits(a[1..], b[1..], limit)
    else Fits(a, b[1..], limit)
  }

  /** `safeAdd` with the overflow panic of the amount type. */
  function SafeAdd(a: seq<Coin>, b: seq<Coin>, limit: int): Option<seq<Coin>> {
    if Fits(a, b, limit) then Some(Merge(a, b)) else None
  }

  /** The loop of `safeAdd`, up to the end of the shorter list; None is the overflow panic. */
  method MergeHeads(a: array<Coin>, b: array<Coin>, limit: int) returns (sum: Option<seq<Coin>>, i: nat, j: nat)
    ensures i <= a.Length && j <= b.Length
    ensures sum.None? ==> !Fits(a[..], b[..], limit)
    ensures sum.Some? ==> i == a.Length || j == b.Length
    ensures sum.Some? ==> sum.value + Merge(a[i..], b[j..]) == Merge(a[..], b[..])
    ensures sum.Some? ==> Fits(a[i..], b[j..], limit) == Fits(a[..], b[..], limit)
  {
    hide Merge, Fits, Less;
    ghost var sa, sb := a[..], b[..];
    var acc: seq<Coin> := [];
    i, j := 0, 0;
    assert sa[0..] == sa && sb[0..] == sb;
    while i < a.Length && j < b.Length
      invariant i <= a.Length && j <= b.Length
      invariant acc + Merge(sa[i..], sb[j..]) == Merge(sa, sb)
      invariant Fits(sa[i..], sb[j..], limit) == Fits(sa, sb, limit)
      decreases a.Length - i + (b.Length - j)
    {
      var coinA, coinB := a[i], b[j];
      MergeStep(sa, i, sb, j, acc, limit);
      if Less(coinA.denom, coinB.denom) {
        acc := acc + Keep(coinA);
        i := i + 1;
      } else if coinA.denom == coinB.denom {
        var res := Coin(coinA.denom, coinA.amount + coinB.amount);
        if Abs(res.amount) >= limit { return None, i, j; }
        acc := acc + Keep(res);
        i, j := i + 1, j + 1;
      } else {
        acc := acc + Keep(coinB);
        j := j + 1;
      }
    }
    assert a[i..] == sa[i..] && b[j..] == sb[j..];
    sum := Some(acc);
  }

  /**
   `safeAdd` on its two backing arrays. The tail that outlives the other list is compacted in place
   before it is appended, so an argument is left as it was only if it holds no zero coin.
   */
  method SafeAddInPlace(a: array<Coin>, b: array<Coin>, limit: int) returns (r: Option<seq<Coin>>)
    modifies a, b
    ensures r == SafeAdd(old(a[..]), old(b[..]), limit)
    ensures ZeroFree(old(a[..])) && ZeroFree(old(b[..])) ==> a[..] == old(a[..]) && b[..] == old(b[..])
  {
    var sum, i, j := MergeHeads(a, b, limit);
    if sum.None? { return None; }
    assert a[i..a.Length] == a[i..] && b[j..b.Length] == b[j..];
    if i == a.Length {
      assert a[i..] == [];
      var end := RemoveZeros(b, j, b.Length);
      return Some(sum.value + b[j..end]);
    }
    assert b[j..] == [];
    var end := RemoveZeros(a, i, a.Length);
    return Some(sum.value + a[i..end]);
  }

  lemma MergeStep(sa: seq<Coin>, i: nat, sb: seq<Coin>, j: nat, sum: seq<Coin>, limit: int)
    requires i < |sa| && j < |sb|
    ensures var m, f := sum + Merge(sa[i..], sb[j..]), Fits(sa[i..], sb[j..], limit);
            var x, y := sa[i], sb[j];
            var z := Coin(x.denom, x.amount + y.amount);
            if Before(x, y) then m == sum + Keep(x) + Merge(sa[i + 1..], sb[j..]) && f == Fits(sa[i + 1..], sb[j..], limit)
            else if x.denom == y.denom then
              && m == sum + Keep(z) + Merge(sa[i + 1..], sb[j + 1..])
              && f == (Abs(z.amount) < limit && Fits(sa[i + 1..], sb[j + 1..], limit))
            else m == sum + Keep(y) + Merge(sa[i..], sb[j + 1..]) && f == Fits(sa[i..], sb[j + 1..], limit)
  {
    assert sa[i..][1..] == sa[i + 1..] && sb[j..][1..] == sb[j + 1..];
    assert sa[i..][0] == sa[i] && sb[j..][0] == sb[j];
  }

  lemma KeepTotal(c: Coin, l: seq<Coin>, denom: string)
    ensures Total(Keep(c) + l, denom) == (if c.denom == denom then c.amount else 0) + Total(l, denom)
  {
    TotalConcat(Keep(c), l, denom);
    assert Total([], denom) == 0;
    if c.amount != 0 {
      assert [c][1..] == [];
    }
  }

  /** The merge adds amounts denom by denom, for every pair of lists. */
  lemma {:induction false} MergeTotals(a: seq<Coin>, b: seq<Coin>, denom: string)
    ensures Total(Merge(a, b), denom) == Total(a, denom) + Total(b, denom)
    decreases |a| + |b|
  {
    if a == [] {
      NonZeroKeepsTotals(b, denom);
    } else if b == [] {
      NonZeroKeepsTotals(a, denom);
    } else if Before(a[0], b[0]) {
      MergeTotals(a[1..], b, denom);
      KeepTotal(a[0], Merge(a[1..], b), denom);
    } else if a[0].denom == b[0].denom {
      MergeTotals(a[1..], b[1..], denom);
      KeepTotal(Coin(a[0].denom, a[0].amount + b[0].amount), Merge(a[1..], b[1..]), denom);
    } else {
      MergeTotals(a, b[1..], denom);
      KeepTotal(b[0], Merge(a, b[1..]), denom);
    }
  }

  lemma AfterTail(c: Coin, l: seq<Coin>)
    requires AllAfter(c, l) && l != []
    ensures Before(c, l[0]) && AllAfter(c, l[1..])
  {
    forall i | 0 <= i < |l[1..]| ensures Before(c, l[1..][i]) {
      assert Before(c, l[i + 1]);
    }
  }

  lemma {:induction false} MergeAfter(c: Coin, a: seq<Coin>, b: seq<Coin>)
    requires AllAfter(c, a) && AllAfter(c, b)
    ensures AllAfter(c, Merge(a, b))
    decreases |a| + |b|
  {
    if a == [] {
      NonZeroAfter(c, b);
    } else if b == [] {
      NonZeroAfter(c, a);
    } else {
      AfterTail(c, a);
      AfterTail(c, b);
      if Before(a[0], b[0]) {
        MergeAfter(c, a[1..], b);
      } else if a[0].denom == b[0].denom {
        MergeAfter(c, a[1..], b[1..]);
      } else {
        MergeAfter(c, a, b[1..]);
      }
    }
  }

  lemma AfterSmaller(c: Coin, l: seq<Coin>)
    requires Sorted(l) && (l != [] ==> Before(c, l[0]))
    ensures AllAfter(c, l)
  {
    forall i | 0 <= i < |l| ensures Before(c, l[i]) {
      if i > 0 {
        assert Before(l[0], l[i]);
        LessTransitive(c.denom, l[0].denom, l[i].denom);
      }
    }
  }

  /** Merging sorted lists gives a strictly sorted, zero-free list. */
  lemma {:induction false} MergeCanonical(a: seq<Coin>, b: seq<Coin>)
    requires Sorted(a) && Sorted(b)
    ensures Canonical(Merge(a, b))
    decreases |a| + |b|
  {
    if a == [] {
      NonZeroCanonical(b);
    } else if b == [] {
      NonZeroCanonical(a);
    } else {
      SortedTail(a);
      SortedTail(b);
      HeadBeforeTail(a);
      HeadBeforeTail(b);
      if Before(a[0], b[0]) {
        MergeCanonical(a[1..], b);
        AfterSmaller(a[0], b);
        MergeAfter(a[0], a[1..], b);
        KeepCanonical(a[0], Merge(a[1..], b));
      } else if a[0].denom == b[0].denom {
        MergeCanonical(a[1..], b[1..]);
        var s := Coin(a[0].denom, a[0].amount + b[0].amount);
        SameDenomAfter(a[0], s, a[1..]);
        SameDenomAfter(b[0], s, b[1..]);
        MergeAfter(s, a[1..], b[1..]);
        KeepCanonical(s, Merge(a[1..], b[1..]));
      } else {
        LessTotal(a[0].denom, b[0].denom);
        MergeCanonical(a, b[1..]);
        AfterSmaller(b[0], a);
        MergeAfter(b[0], a, b[1..]);
        KeepCanonical(b[0], Merge(a, b[1..]));
      }
    }
  }

  lemma SameDenomAfter(c: Coin, s: Coin, l: seq<Coin>)
    requires c.denom == s.denom && AllAfter(c, l)
    ensures AllAfter(s, l)
  {
    forall i | 0 <= i < |l| ensures Before(s, l[i]) { assert Before(c, l[i]); }
  }

  /** On sorted lists `safeAdd` panics exactly when the total of some common denom reaches the limit. */
  lemma {:induction false} FitsIff(a: seq<Coin>, b: seq<Coin>, limit: int)
    requires Sorted(a) && Sorted(b)
    ensures Fits(a, b, limit) <==> AllFit(a, b, limit)
    decreases |a| + |b|
  {
    hide Less;
    if a != [] && b != [] {
      SortedTail(a);
      SortedTail(b);
      if Before(a[0], b[0]) {
        AfterSmaller(a[0], b);
        FitsIff(a[1..], b, limit);
        DropFirst(a, b, limit);
      } else if a[0].denom == b[0].denom {
        HeadBeforeTail(a);
        HeadBeforeTail(b);
        FitsIff(a[1..], b[1..], limit);
        DropBoth(a, b, limit);
      } else {
        LessTotal(a[0].denom, b[0].denom);
        AfterSmaller(b[0], a);
        FitsIff(a, b[1..], limit);
        DropSecond(a, b, limit);
      }
    }
  }

  ghost predicate AllFit(a: seq<Coin>, b: seq<Coin>, limit: int) {
    forall i, j :: 0 <= i < |a| && 0 <= j < |b| && a[i].denom == b[j].denom ==> Abs(a[i].amount + b[j].amount) < limit
  }

  lemma DropFirst(a: seq<Coin>, b: seq<Coin>, limit: int)
    requires a != [] && AllAfter(a[0], b)
    ensures AllFit(a, b, limit) <==> AllFit(a[1..], b, limit)
  {
    LessIrreflexive(a[0].denom);
    if AllFit(a[1..], b, limit) {
      forall i, j | 0 <= i < |a| && 0 <= j < |b| && a[i].denom == b[j].denom
        ensures Abs(a[i].amount + b[j].amount) < limit
      {
        assert Before(a[0], b[j]);
        assert i > 0;
        assert a[1..][i - 1] == a[i];
      }
    }
  }

  lemma DropSecond(a: seq<Coin>, b: seq<Coin>, limit: int)
    requires b != [] && AllAfter(b[0], a)
    ensures AllFit(a, b, limit) <==> AllFit(a, b[1..], limit)
  {
    LessIrreflexive(b[0].denom);
    if AllFit(a, b[1..], limit) {
      forall i, j | 0 <= i < |a| && 0 <= j < |b| && a[i].denom == b[j].denom
        ensures Abs(a[i].amount + b[j].amount) < limit
      {
        assert Before(b[0], a[i]);
        assert j > 0;
        assert b[1..][j - 1] == b[j];
      }
    }
  }

  lemma DropBoth(a: seq<Coin>, b: seq<Coin>, limit: int)
    requires a != [] && b != [] && a[0].denom == b[0].denom
    requires AllAfter(a[0], a[1..]) && AllAfter(b[0], b[1..])
    ensures AllFit(a, b, limit) <==> Abs(a[0].amount + b[0].amount) < limit && AllFit(a[1..], b[1..], limit)
  {
    LessIrreflexive(a[0].denom);
    if Abs(a[0].amount + b[0].amount) < limit && AllFit(a[1..], b[1..], limit) {
      forall i, j | 0 <= i < |a| && 0 <= j < |b| && a[i].denom == b[j].denom
        ensures Abs(a[i].amount + b[j].amount) < limit
      {
        if i > 0 { assert Before(a[0], a[1..][i - 1]); }
        if j > 0 { assert Before(b[0], b[1..][j - 1]); }
        if i > 0 && j > 0 {
          assert a[1..][i - 1] == a[i] && b[1..][j - 1] == b[j];
        }
      }
    }
  }

  // ---------------------------------------------------------------- algebra

  lemma MergeSameTotals(a: seq<Coin>, b: seq<Coin>)
    ensures forall d :: Total(Merge(a, b), d) == Total(a, d) + Total(b, d)
  {
    forall d ensures Total(Merge(a, b), d) == Total(a, d) + Total(b, d) {
      MergeTotals(a, b, d);
    }
  }

  lemma MergeCommutes(a: seq<Coin>, b: seq<Coin>)
    requires Sorted(a) && Sorted(b)
    ensures Merge(a, b) == Merge(b, a)
  {
    MergeCanonical(a, b);
    MergeCanonical(b, a);
    MergeSameTotals(a, b);
    MergeSameTotals(b, a);
    CanonicalUnique(Merge(a, b), Merge(b, a));
  }

  lemma MergeAssociates(a: seq<Coin>, b: seq<Coin>, c: seq<Coin>)
    requires Sorted(a) && Sorted(b) && Sorted(c)
    ensures Merge(Merge(a, b), c) == Merge(a, Merge(b, c))
  {
    var ab, bc := Merge(a, b), Merge(b, c);
    MergeCanonical(a, b);
    MergeCanonical(b, c);
    MergeCanonical(ab, c);
    MergeCanonical(a, bc);
    MergeSameTotals(a, b);
    MergeSameTotals(b, c);
    MergeSameTotals(ab, c);
    MergeSameTotals(a, bc);
    CanonicalUnique(Merge(ab, c), Merge(a, bc));
  }

  /** `safeAdd` does not depend on the order of the two sets, its overflow panic included. */
  lemma SafeAddCommutes(a: seq<Coin>, b: seq<Coin>, limit: int)
    requires Sorted(a) && Sorted(b)
    ensures SafeAdd(a, b, limit) == SafeAdd(b, a, limit)
  {
    hide Merge, Fits;
    MergeCommutes(a, b);
    FitsIff(a, b, limit);
    FitsIff(b, a, limit);
  }

  /** a + b, then + c. */
  function SafeAddLeft(a: seq<Coin>, b: seq<Coin>, c: seq<Coin>, limit: int): Option<seq<Coin>> {
    var ab :- SafeAdd(a, b, limit);
    SafeAdd(ab, c, limit)
  }

  /** a + (b + c) */
  function SafeAddRight(a: seq<Coin>, b: seq<Coin>, c: seq<Coin>, limit: int): Option<seq<Coin>> {
    var bc :- SafeAdd(b, c, limit);
    SafeAdd(a, bc, limit)
  }

  ghost predicate Within(cs: seq<Coin>, limit: int) {
    forall i :: 0 <= i < |cs| ==> Abs(cs[i].amount) < limit
  }

  /** The sum of two totals is in range for every denom. */
  ghost predicate PairsWithin(a: seq<Coin>, b: seq<Coin>, limit: int) {
    forall d :: Abs(Total(a, d) + Total(b, d)) < limit
  }

  /** The sum of three totals is in range for every denom. */
  ghost predicate TriplesWithin(a: seq<Coin>, b: seq<Coin>, c: seq<Coin>, limit: int) {
    forall d :: Abs(Total(a, d) + Total(b, d) + Total(c, d)) < limit
  }

  /** A total is either the amount of the one coin with that denom, or zero when there is none. */
  lemma FindCoin(cs: seq<Coin>, d: string)
    requires Sorted(cs)
    ensures (exists i :: 0 <= i < |cs| && cs[i].denom == d && Total(cs, d) == cs[i].amount)
         || ((forall i :: 0 <= i < |cs| ==> cs[i].denom != d) && Total(cs, d) == 0)
  {
    if exists i :: 0 <= i < |cs| && cs[i].denom == d {
      var i :| 0 <= i < |cs| && cs[i].denom == d;
      TotalAt(cs, i);
    } else {
      TotalAbsent(cs, d);
    }
  }

  /** On in-range sets the merge fits exactly when every sum of totals does. */
  lemma FitsTotals(a: seq<Coin>, b: seq<Coin>, limit: int)
    requires Sorted(a) && Sorted(b) && Within(a, limit) && Within(b, limit) && limit > 0
    ensures Fits(a, b, limit) <==> PairsWithin(a, b, limit)
  {
    hide Fits, Total;
    FitsIff(a, b, limit);
    if AllFit(a, b, limit) {
      forall d ensures Abs(Total(a, d) + Total(b, d)) < limit {
        FindCoin(a, d);
        FindCoin(b, d);
      }
    }
    if PairsWithin(a, b, limit) {
      forall i, j | 0 <= i < |a| && 0 <= j < |b| && a[i].denom == b[j].denom
        ensures Abs(a[i].amount + b[j].amount) < limit
      {
        TotalAt(a, i);
        TotalAt(b, j);
        assert Abs(Total(a, a[i].denom) + Total(b, a[i].denom)) < limit;
      }
    }
  }

  lemma MergeWithin(a: seq<Coin>, b: seq<Coin>, limit: int)
    requires Sorted(a) && Sorted(b) && PairsWithin(a, b, limit)
    ensures Within(Merge(a, b), limit)
  {
    hide Merge, Total;
    var m := Merge(a, b);
    MergeCanonical(a, b);
    forall i | 0 <= i < |m| ensures Abs(m[i].amount) < limit {
      TotalAt(m, i);
      MergeTotals(a, b, m[i].denom);
      assert Abs(Total(a, m[i].denom) + Total(b, m[i].denom)) < limit;
    }
  }

  lemma MergePairs(a: seq<Coin>, b: seq<Coin>, c: seq<Coin>, limit: int)
    ensures PairsWithin(Merge(a, b), c, limit) <==> TriplesWithin(a, b, c, limit)
  {
    hide Merge, Total;
    MergeSameTotals(a, b);
    var m := Merge(a, b);
    if PairsWithin(m, c, limit) {
      forall d ensures Abs(Total(a, d) + Total(b, d) + Total(c, d)) < limit {
        assert Abs(Total(m, d) + Total(c, d)) < limit;
      }
    }
    if TriplesWithin(a, b, c, limit) {
      forall d ensures Abs(Total(m, d) + Total(c, d)) < limit {
        assert Abs(Total(a, d) + Total(b, d) + Total(c, d)) < limit;
      }
    }
  }

  lemma LeftReturnsIff(a: seq<Coin>, b: seq<Coin>, c: seq<Coin>, limit: int)
    requires limit > 0 && Sorted(a) && Sorted(b) && Sorted(c)
    requires Within(a, limit) && Within(b, limit) && Within(c, limit)
    ensures SafeAddLeft(a, b, c, limit).Some? <==> PairsWithin(a, b, limit) && TriplesWithin(a, b, c, limit)
  {
    hide Merge, Fits, Total;
    FitsTotals(a, b, limit);
    if PairsWithin(a, b, limit) {
      MergeCanonical(a, b);
      MergeWithin(a, b, limit);
      FitsTotals(Merge(a, b), c, limit);
      MergePairs(a, b, c, limit);
    }
  }

  lemma TriplesRotate(a: seq<Coin>, b: seq<Coin>, c: seq<Coin>, limit: int)
    requires TriplesWithin(a, b, c, limit)
    ensures TriplesWithin(b, c, a, limit)
  {
    hide Total;
    forall d ensures Abs(Total(b, d) + Total(c, d) + Total(a, d)) < limit {
      assert Abs(Total(a, d) + Total(b, d) + Total(c, d)) < limit;
    }
  }

  lemma RightReturnsIff(a: seq<Coin>, b: seq<Coin>, c: seq<Coin>, limit: int)
    requires limit > 0 && Sorted(a) && Sorted(b) && Sorted(c)
    requires Within(a, limit) && Within(b, limit) && Within(c, limit)
    ensures SafeAddRight(a, b, c, limit).Some? <==> PairsWithin(b, c, limit) && TriplesWithin(a, b, c, limit)
  {
    hide Merge, Fits, Total;
    LeftReturnsIff(b, c, a, limit);
    if TriplesWithin(a, b, c, limit) { TriplesRotate(a, b, c, limit); }
    if TriplesWithin(b, c, a, limit) { TriplesRotate(b, c, a, limit); TriplesRotate(c, a, b, limit); }
    MergeCanonical(b, c);
    SafeAddCommutes(a, Merge(b, c), limit);
  }

  /**
   "Three sets may be grouped either way" is false of the code: a partial sum can overflow that the whole
   does not. A grouping returns exactly when its partial sums and the sums of all three are in range, and
   the two groupings agree, panics included, exactly when sums of all three in range imply that the
   partial sums of both or of neither are.
   */
  lemma SafeAddAssociatesIff(a: seq<Coin>, b: seq<Coin>, c: seq<Coin>, limit: int)
    requires limit > 0 && Sorted(a) && Sorted(b) && Sorted(c)
    requires Within(a, limit) && Within(b, limit) && Within(c, limit)
    ensures var l, r := SafeAddLeft(a, b, c, limit), SafeAddRight(a, b, c, limit);
            && (l.Some? <==> PairsWithin(a, b, limit) && TriplesWithin(a, b, c, limit))
            && (r.Some? <==> PairsWithin(b, c, limit) && TriplesWithin(a, b, c, limit))
            && (l == r <==> (TriplesWithin(a, b, c, limit) ==> (PairsWithin(a, b, limit) <==> PairsWithin(b, c, limit))))
  {
    hide Merge, Fits, PairsWithin, TriplesWithin;
    MergeAssociates(a, b, c);
    LeftReturnsIff(a, b, c, limit);
    RightReturnsIff(a, b, c, limit);
  }

  /** Where both groupings of sorted sets return, in range or not, they return the same list. */
  lemma GroupingsAgree(a: seq<Coin>, b: seq<Coin>, c: seq<Coin>, limit: int)
    requires Sorted(a) && Sorted(b) && Sorted(c)
    requires SafeAddLeft(a, b, c, limit).Some? && SafeAddRight(a, b, c, limit).Some?
    ensures SafeAddLeft(a, b, c, limit) == SafeAddRight(a, b, c, limit)
  {
    hide Merge, Fits;
    MergeAssociates(a, b, c);
  }

  lemma NonNegativePairs(a: seq<Coin>, b: seq<Coin>, c: seq<Coin>, limit: int)
    requires NonNegative(a) && NonNegative(b) && NonNegative(c) && TriplesWithin(a, b, c, limit)
    ensures PairsWithin(a, b, limit) && PairsWithin(b, c, limit)
  {
    hide Total;
    forall d ensures Abs(Total(a, d) + Total(b, d)) < limit && Abs(Total(b, d) + Total(c, d)) < limit {
      TotalNonNegative(a, d);
      TotalNonNegative(b, d);
      TotalNonNegative(c, d);
      assert Abs(Total(a, d) + Total(b, d) + Total(c, d)) < limit;
    }
  }

  /** Non-negative sets may be grouped either way: both return exactly when no denom's total overflows. */
  lemma SafeAddAssociates(a: seq<Coin>, b: seq<Coin>, c: seq<Coin>, limit: int)
    requires limit > 0 && Sorted(a) && Sorted(b) && Sorted(c)
    requires Within(a, limit) && Within(b, limit) && Within(c, limit)
    requires NonNegative(a) && NonNegative(b) && NonNegative(c)
    ensures SafeAddLeft(a, b, c, limit) == SafeAddRight(a, b, c, limit)
    ensures SafeAddLeft(a, b, c, limit).Some? <==> TriplesWithin(a, b, c, limit)
  {
    hide PairsWithin, TriplesWithin, SafeAddLeft, SafeAddRight;
    SafeAddAssociatesIff(a, b, c, limit);
    if TriplesWithin(a, b, c, limit) { NonNegativePairs(a, b, c, limit); }
  }

  /** With amounts of both signs one grouping can overflow where the other does not. */
  lemma GroupingCanPanic(denom: string, limit: int)
    requires limit > 1
    ensures var top, one, minus := [Coin(denom, limit - 1)], [Coin(denom, 1)], [Coin(denom, -1)];
            && SafeAddLeft(top, one, minus, limit) == None
            && SafeAddRight(top, one, minus, limit) == Some(top)
  {
    var top, one, minus := Coin(denom, limit - 1), Coin(denom, 1), Coin(denom, -1);
    AddSingles(top, one, limit);
    AddSingles(one, minus, limit);
    NonZeroOfZeroFree([top]);
  }

  lemma AddSingles(c: Coin, e: Coin, limit: int)
    requires c.denom == e.denom
    ensures var sum := Coin(c.denom, c.amount + e.amount);
            SafeAdd([c], [e], limit) == if Abs(sum.amount) < limit then Some(Keep(sum)) else None
  {
    LessIrreflexive(c.denom);
    assert [c][1..] == [] && [e][1..] == [];
    var k := Keep(Coin(c.denom, c.amount + e.amount));
    assert Merge([c], [e]) == k + Merge([], []) == k;
    assert Fits([], [], limit);
    assert Fits([c], [e], limit) == (Abs(c.amount + e.amount) < limit && Fits([c][1..], [e][1..], limit));
  }

  // ------------------------------------------------------------ subtraction

  function Negative(cs: seq<Coin>): seq<Coin> {
    seq(|cs|, i requires 0 <= i < |cs| => Coin(cs[i].denom, -cs[i].amount))
  }

  method NegativeCoins(cs: seq<Coin>) returns (res: seq<Coin>)
    ensures res == Negative(cs)
  {
    res := [];
    for i := 0 to |cs|
      invariant res == Negative(cs)[..i]
    {
      res := res + [Coin(cs[i].denom, -cs[i].amount)];
    }
  }

  lemma NegativeSorted(cs: seq<Coin>)
    requires Sorted(cs)
    ensures Sorted(Negative(cs))
  {
    var n := Negative(cs);
    forall i, j | 0 <= i < j < |n| ensures Before(n[i], n[j]) { assert Before(cs[i], cs[j]); }
  }

  lemma {:induction false} NegativeTotal(cs: seq<Coin>, denom: string)
    ensures Total(Negative(cs), denom) == -Total(cs, denom)
  {
    if cs != [] {
      NegativeTotal(cs[1..], denom);
      assert Negative(cs)[1..] == Negative(cs[1..]);
    }
  }

  predicate AnyNegative(cs: seq<Coin>) {
    exists i :: 0 <= i < |cs| && cs[i].amount < 0
  }

  method IsAnyNegative(cs: seq<Coin>) returns (r: bool)
    ensures r <==> AnyNegative(cs)
  {
    for i := 0 to |cs|
      invariant forall k :: 0 <= k < i ==> cs[k].amount >= 0
    {
      if cs[i].amount < 0 { return true; }
    }
    return false;
  }

  datatype Difference = Difference(coins: seq<Coin>, hasNegative: bool)

  function SafeSub(a: seq<Coin>, b: seq<Coin>, limit: int): Option<Difference> {
    var diff :- SafeAdd(a, Negative(b), limit);
    Some(Difference(diff, AnyNegative(diff)))
  }

  lemma AnyNegativeIff(cs: seq<Coin>)
    requires Sorted(cs)
    ensures AnyNegative(cs) <==> exists d :: Total(cs, d) < 0
  {
    if AnyNegative(cs) {
      var i :| 0 <= i < |cs| && cs[i].amount < 0;
      TotalAt(cs, i);
    }
    if exists d :: Total(cs, d) < 0 {
      var d :| Total(cs, d) < 0;
      if forall i :: 0 <= i < |cs| ==> cs[i].denom != d {
        TotalAbsent(cs, d);
      } else {
        var i :| 0 <= i < |cs| && cs[i].denom == d;
        TotalAt(cs, i);
      }
    }
  }

  /** `SafeSub` flags a negative result exactly when some denom has less in A than in B. */
  lemma SafeSubFlag(a: seq<Coin>, b: seq<Coin>, limit: int, r: Difference)
    requires Sorted(a) && Sorted(b)
    requires SafeSub(a, b, limit) == Some(r)
    ensures Canonical(r.coins) && forall d :: Total(r.coins, d) == Total(a, d) - Total(b, d)
    ensures r.hasNegative <==> exists d :: Total(a, d) < Total(b, d)
  {
    NegativeSorted(b);
    MergeCanonical(a, Negative(b));
    forall d ensures Total(r.coins, d) == Total(a, d) - Total(b, d) {
      MergeTotals(a, Negative(b), d);
      NegativeTotal(b, d);
    }
    AnyNegativeIff(r.coins);
    if exists d :: Total(a, d) < Total(b, d) {
      var d :| Total(a, d) < Total(b, d);
      assert Total(r.coins, d) < 0;
    }
  }

  /** The difference of two totals is in range for every denom. */
  ghost predicate DifferencesWithin(a: seq<Coin>, b: seq<Coin>, limit: int) {
    forall d :: Abs(Total(a, d) - Total(b, d)) < limit
  }

  lemma NegativeWithin(b: seq<Coin>, limit: int)
    requires Within(b, limit)
    ensures Within(Negative(b), limit)
  {
  }

  lemma NegativePairs(a: seq<Coin>, b: seq<Coin>, limit: int)
    ensures PairsWithin(a, Negative(b), limit) <==> DifferencesWithin(a, b, limit)
  {
    hide Total, Negative;
    var n := Negative(b);
    forall d ensures Total(n, d) == -Total(b, d) { NegativeTotal(b, d); }
    if PairsWithin(a, n, limit) {
      forall d ensures Abs(Total(a, d) - Total(b, d)) < limit { assert Abs(Total(a, d) + Total(n, d)) < limit; }
    }
    if DifferencesWithin(a, b, limit) {
      forall d ensures Abs(Total(a, d) + Total(n, d)) < limit { assert Abs(Total(a, d) - Total(b, d)) < limit; }
    }
  }

  /**
   Subtracting in-range sets returns exactly when every denom's difference is in range, negative ones
   included. Then the result has those differences, and the flag tells whether one of them is negative.
   */
  lemma SafeSubIff(a: seq<Coin>, b: seq<Coin>, limit: int)
    requires limit > 0 && Sorted(a) && Sorted(b) && Within(a, limit) && Within(b, limit)
    ensures SafeSub(a, b, limit).Some? <==> DifferencesWithin(a, b, limit)
    ensures DifferencesWithin(a, b, limit) ==>
              var r := SafeSub(a, b, limit).value;
              && Canonical(r.coins) && (forall d :: Total(r.coins, d) == Total(a, d) - Total(b, d))
              && (r.hasNegative <==> exists d :: Total(a, d) < Total(b, d))
  {
    NegativeSorted(b);
    NegativeWithin(b, limit);
    NegativePairs(a, b, limit);
    FitsTotals(a, Negative(b), limit);
    hide Fits, Merge, Total, Negative, AnyNegative, DifferencesWithin, PairsWithin;
    if DifferencesWithin(a, b, limit) {
      SafeSubFlag(a, b, limit, SafeSub(a, b, limit).value);
    }
  }

  /** One of a minus two of it is minus one, and flagged. */
  lemma NegativeDifference(denom: string, limit: int)
    requires limit > 2
    ensures SafeSub([Coin(denom, 1)], [Coin(denom, 2)], limit) == Some(Difference([Coin(denom, -1)], true))
  {
    var n := Coin(denom, -2);
    assert Negative([Coin(denom, 2)]) == [n];
    AddSingles(Coin(denom, 1), n, limit);
    var d := [Coin(denom, -1)];
    assert d[0].amount < 0;
  }

  /** Subtracting B and adding it back gives A, as a list. */
  lemma SubThenAdd(a: seq<Coin>, b: seq<Coin>)
    requires Canonical(a) && Sorted(b)
    ensures Merge(Merge(a, Negative(b)), b) == a
  {
    var n := Negative(b);
    var m := Merge(a, n);
    NegativeSorted(b);
    MergeCanonical(a, n);
    MergeCanonical(m, b);
    forall d ensures Total(Merge(m, b), d) == Total(a, d) {
      MergeTotals(m, b, d);
      MergeTotals(a, n, d);
      NegativeTotal(b, d);
    }
    CanonicalUnique(Merge(m, b), a);
  }

  /** Where `SafeSub` returns, adding the subtrahend back returns the original list: no panic, no loss. */
  lemma SafeSubThenAdd(a: seq<Coin>, b: seq<Coin>, limit: int, r: Difference)
    requires Canonical(a) && Sorted(b) && Within(a, limit) && limit > 0
    requires SafeSub(a, b, limit) == Some(r)
    ensures SafeAdd(r.coins, b, limit) == Some(a)
  {
    hide Merge, Fits, Total;
    SubThenAdd(a, b);
    SafeSubFlag(a, b, limit, r);
    FitsIff(r.coins, b, limit);
    forall i, j | 0 <= i < |r.coins| && 0 <= j < |b| && r.coins[i].denom == b[j].denom
      ensures Abs(r.coins[i].amount + b[j].amount) < limit
    {
      TotalAt(r.coins, i);
      TotalAt(b, j);
      FindCoin(a, b[j].denom);
    }
  }

  // ----------------------------------------------------------- intersection

  function Minima(a: seq<Coin>, b: seq<Coin>): (m: seq<Coin>)
    ensures |m| == |a|
  {
    seq(|a|, i requires 0 <= i < |a| => Coin(a[i].denom, Min(a[i].amount, Search(b, a[i].denom))))
  }

  predicate AllValidDenoms(cs: seq<Coin>) {
    forall i :: 0 <= i < |cs| ==> ValidDenom(cs[i].denom)
  }

  /** `Intersect`: the minimum for every denom of a, without zeros; a malformed denom panics. */
  function Intersect(a: seq<Coin>, b: seq<Coin>): Option<seq<Coin>> {
    if AllValidDenoms(a) then Some(NonZero(Minima(a, b))) else None
  }

  method IntersectCoins(a: seq<Coin>, b: seq<Coin>) returns (r: Option<seq<Coin>>)
    ensures r == Intersect(a, b)
  {
    var res := new Coin[|a|](_ => Coin("", 0));
    for i := 0 to |a|
      invariant forall k :: 0 <= k < i ==> ValidDenom(a[k].denom)
      invariant res[..i] == Minima(a, b)[..i]
    {
      var amount := AmountOf(b, a[i].denom);
      if amount.None? { return None; }
      res[i] := Coin(a[i].denom, Min(a[i].amount, amount.value));
      assert res[..i + 1] == res[..i] + [res[i]];
    }
    assert res[0..res.Length] == Minima(a, b);
    var end := RemoveZeros(res, 0, res.Length);
    return Some(res[..end]);
  }

  /** Intersection of non-negative sets is the pointwise minimum. */
  lemma IntersectIsMinimum(a: seq<Coin>, b: seq<Coin>, r: seq<Coin>)
    requires Sorted(a) && Sorted(b) && NonNegative(a) && NonNegative(b)
    requires Intersect(a, b) == Some(r)
    ensures Canonical(r) && forall d :: Total(r, d) == Min(Total(a, d), Total(b, d))
  {
    var m := Minima(a, b);
    assert Sorted(m) by {
      forall i, j | 0 <= i < j < |m| ensures Before(m[i], m[j]) { assert Before(a[i], a[j]); }
    }
    NonZeroCanonical(m);
    forall d ensures Total(r, d) == Min(Total(a, d), Total(b, d)) {
      NonZeroKeepsTotals(m, d);
      TotalNonNegative(b, d);
      if forall i :: 0 <= i < |a| ==> a[i].denom != d {
        TotalAbsent(a, d);
        TotalAbsent(m, d);
      } else {
        var i :| 0 <= i < |a| && a[i].denom == d;
        TotalAt(a, i);
        TotalAt(m, i);
        SearchIsTotal(b, d);
      }
    }
  }

  /** On sets of either sign: the minimum for the denoms of the first, and nothing of any other. */
  lemma IntersectTotals(a: seq<Coin>, b: seq<Coin>)
    requires Sorted(a) && Sorted(b) && AllValidDenoms(a)
    ensures Intersect(a, b).Some?
    ensures var r := Intersect(a, b).value;
            && Canonical(r)
            && (forall i :: 0 <= i < |a| ==> Total(r, a[i].denom) == Min(a[i].amount, Total(b, a[i].denom)))
            && (forall d :: (forall i :: 0 <= i < |a| ==> a[i].denom != d) ==> Total(r, d) == 0)
  {
    var m, r := Minima(a, b), Intersect(a, b).value;
    assert Sorted(m) by {
      forall i, j | 0 <= i < j < |m| ensures Before(m[i], m[j]) { assert Before(a[i], a[j]); }
    }
    NonZeroCanonical(m);
    hide NonZero, Total;
    forall i | 0 <= i < |a| ensures Total(r, a[i].denom) == Min(a[i].amount, Total(b, a[i].denom)) {
      NonZeroKeepsTotals(m, a[i].denom);
      TotalAt(m, i);
      SearchIsTotal(b, a[i].denom);
    }
    forall d | forall i :: 0 <= i < |a| ==> a[i].denom != d ensures Total(r, d) == 0 {
      NonZeroKeepsTotals(m, d);
      TotalAbsent(m, d);
    }
  }

  lemma {:induction false} TotalNonNegative(cs: seq<Coin>, d: string)
    requires NonNegative(cs)
    ensures Total(cs, d) >= 0
  {
    if cs != [] {
      TotalNonNegative(cs[1..], d);
    }
  }

  /** Intersection does not depend on the order of its arguments. */
  lemma IntersectCommutes(a: seq<Coin>, b: seq<Coin>, r: seq<Coin>, s: seq<Coin>)
    requires Sorted(a) && Sorted(b) && NonNegative(a) && NonNegative(b)
    requires Intersect(a, b) == Some(r) && Intersect(b, a) == Some(s)
    ensures r == s
  {
    IntersectIsMinimum(a, b, r);
    IntersectIsMinimum(b, a, s);
    CanonicalUnique(r, s);
  }
}
