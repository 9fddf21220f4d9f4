/**
 What makes a coin set valid and how sets are built: `IsValid`, `Sort`, `findDup`, `NewCoins`
 and `TruncateDecimal` (types/coin.go, types/dec_coin.go).
 */
module CoinRules {
  import opened Arith
  import opened Text
  import opened Coins
  import opened CoinSets
  import Decimals

  // --------------------------------------------------------------- validity

  /** Only the first denom is matched against the pattern; the others must be lower case, increasing and positive. */
  predicate IsValid(cs: seq<Coin>) {
    cs == [] ||
    (&& ValidDenom(cs[0].denom) && cs[0].amount > 0
     && forall i :: 1 <= i < |cs| ==> IsLower(cs[i].denom) && Before(cs[i - 1], cs[i]) && cs[i].amount > 0)
  }

  method IsValidCoins(cs: seq<Coin>) returns (r: bool)
    ensures r <==> IsValid(cs)
  {
    if |cs| == 0 { return true; }
    if !ValidDenom(cs[0].denom) || cs[0].amount <= 0 { return false; }
    var lowDenom := cs[0].denom;
    for i := 1 to |cs|
      invariant lowDenom == cs[i - 1].denom
      invariant forall k :: 1 <= k < i ==> IsLower(cs[k].denom) && Before(cs[k - 1], cs[k]) && cs[k].amount > 0
    {
      if !IsLower(cs[i].denom) { return false; }
      if !Less(lowDenom, cs[i].denom) { return false; }
      if cs[i].amount <= 0 { return false; }
      lowDenom := cs[i].denom;
    }
    return true;
  }

  predicate AllPositive(cs: seq<Coin>) {
    forall i :: 0 <= i < |cs| ==> cs[i].amount > 0
  }

  /** Checking neighbours is enough: a valid set is strictly sorted throughout. */
  lemma {:induction false} NeighboursSorted(cs: seq<Coin>)
    requires forall i :: 1 <= i < |cs| ==> Before(cs[i - 1], cs[i])
    ensures Sorted(cs)
  {
    if |cs| > 1 {
      var t := cs[1..];
      forall i | 1 <= i < |t| ensures Before(t[i - 1], t[i]) {
        assert Before(cs[i + 1 - 1], cs[i + 1]);
      }
      NeighboursSorted(t);
      assert Before(cs[1 - 1], cs[1]);
      AfterSmaller(cs[0], t);
      SortedCons(cs[0], t);
      assert cs == [cs[0]] + t;
    }
  }

  lemma ValidIsCanonical(cs: seq<Coin>)
    requires IsValid(cs)
    ensures Canonical(cs) && AllPositive(cs)
  {
    NeighboursSorted(cs);
  }

  // ---------------------------------------------------------------- sorting

  function Insert(c: Coin, cs: seq<Coin>): seq<Coin> {
    if cs == [] || !Less(cs[0].denom, c.denom) then [c] + cs
    else [cs[0]] + Insert(c, cs[1..])
  }

  /** sort.Sort by denom. Equal denoms never survive the checks that follow it, so their order does not matter. */
  function SortByDenom(cs: seq<Coin>): seq<Coin> {
    if cs == [] then [] else Insert(cs[0], SortByDenom(cs[1..]))
  }

  lemma {:induction false} InsertTotal(c: Coin, cs: seq<Coin>, denom: string)
    ensures Total(Insert(c, cs), denom) == Total([c], denom) + Total(cs, denom)
  {
    if cs == [] || !Less(cs[0].denom, c.denom) {
      TotalConcat([c], cs, denom);
    } else {
      InsertTotal(c, cs[1..], denom);
      TotalConcat([cs[0]], Insert(c, cs[1..]), denom);
      TotalConcat([cs[0]], cs[1..], denom);
      assert cs == [cs[0]] + cs[1..];
    }
  }

  lemma {:induction false} SortTotal(cs: seq<Coin>, denom: string)
    ensures Total(SortByDenom(cs), denom) == Total(cs, denom)
  {
    if cs != [] {
      SortTotal(cs[1..], denom);
      InsertTotal(cs[0], SortByDenom(cs[1..]), denom);
      TotalConcat([cs[0]], cs[1..], denom);
      assert cs == [cs[0]] + cs[1..];
    }
  }

  /** Sorting leaves a strictly sorted list alone. */
  lemma {:induction false} SortOfSorted(cs: seq<Coin>)
    requires Sorted(cs)
    ensures SortByDenom(cs) == cs
  {
    if cs != [] {
      SortedTail(cs);
      SortOfSorted(cs[1..]);
      if |cs| > 1 {
        assert Before(cs[0], cs[1]);
        LessIrreflexive(cs[0].denom);
        if Less(cs[1].denom, cs[0].denom) { LessTransitive(cs[0].denom, cs[1].denom, cs[0].denom); }
      }
      assert cs == [cs[0]] + cs[1..];
    }
  }

  /** `findDup` on a sorted list: the first index whose denom repeats the one before, or -1. */
  method FindDup(cs: seq<Coin>) returns (dup: int)
    ensures dup == -1 || 1 <= dup < |cs|
    ensures dup == -1 ==> forall i :: 1 <= i < |cs| ==> cs[i].denom != cs[i - 1].denom
    ensures dup != -1 ==> cs[dup].denom == cs[dup - 1].denom
    ensures forall i :: 1 <= i < dup ==> cs[i].denom != cs[i - 1].denom
  {
    if |cs| <= 1 { return -1; }
    var prevDenom := cs[0].denom;
    for i := 1 to |cs|
      invariant prevDenom == cs[i - 1].denom
      invariant forall k :: 1 <= k < i ==> cs[k].denom != cs[k - 1].denom
    {
      if cs[i].denom == prevDenom { return i; }
      prevDenom := cs[i].denom;
    }
    return -1;
  }

  /** `NewCoins`: drop zeros, sort, refuse duplicates and invalid sets. A duplicate also fails IsValid. */
  function NewCoins(cs: seq<Coin>): Option<seq<Coin>> {
    var sorted := SortByDenom(NonZero(cs));
    if IsValid(sorted) then Some(sorted) else None
  }

  /** `Sort` on the slice a[..end]: in the caller's array. */
  method SortInPlace(a: array<Coin>, end: nat)
    requires end <= a.Length
    modifies a
    ensures a[..end] == SortByDenom(old(a[..end])) && a[end..] == old(a[end..])
  {
    var sorted := SortByDenom(a[..end]);
    SortLength(a[..end]);
    for i := 0 to end
      invariant a[..i] == sorted[..i] && a[end..] == old(a[end..])
    {
      a[i] := sorted[i];
      assert a[..i + 1] == a[..i] + [a[i]];
    }
    assert sorted[..end] == sorted;
  }

  lemma {:induction false} InsertLength(c: Coin, cs: seq<Coin>)
    ensures |Insert(c, cs)| == |cs| + 1
  {
    if cs != [] { InsertLength(c, cs[1..]); }
  }

  lemma {:induction false} SortLength(cs: seq<Coin>)
    ensures |SortByDenom(cs)| == |cs|
  {
    if cs != [] {
      SortLength(cs[1..]);
      InsertLength(cs[0], SortByDenom(cs[1..]));
    }
  }

  /** The set that is returned is the front of the caller's array, where it was compacted and sorted. */
  method NewCoinsFrom(a: array<Coin>) returns (r: Option<seq<Coin>>)
    modifies a
    ensures r == NewCoins(old(a[..]))
    ensures r.Some? ==> |r.value| <= a.Length && a[..|r.value|] == r.value
  {
    assert a[0..a.Length] == a[..];
    var end := RemoveZeros(a, 0, a.Length);
    assert a[0..end] == a[..end];
    if end == 0 { return Some([]); }
    SortInPlace(a, end);
    var sorted := a[..end];
    var dup := FindDup(sorted);
    if dup != -1 {
      LessIrreflexive(sorted[dup].denom);
      assert !Before(sorted[dup - 1], sorted[dup]);
      return None;
    }
    var valid := IsValidCoins(sorted);
    return if valid then Some(sorted) else None;
  }

  // ------------------------------------------------------ when a set is built

  lemma {:induction false} InsertKeeps(c: Coin, cs: seq<Coin>)
    ensures multiset(Insert(c, cs)) == multiset{c} + multiset(cs)
  {
    if cs != [] && Less(cs[0].denom, c.denom) {
      InsertKeeps(c, cs[1..]);
      assert cs == [cs[0]] + cs[1..];
    }
  }

  /** Sorting keeps the coins. */
  lemma {:induction false} SortKeeps(cs: seq<Coin>)
    ensures multiset(SortByDenom(cs)) == multiset(cs)
  {
    if cs != [] {
      SortKeeps(cs[1..]);
      InsertKeeps(cs[0], SortByDenom(cs[1..]));
      assert cs == [cs[0]] + cs[1..];
    }
  }

  /** No coin is before its left neighbour. */
  ghost predicate Ordered(cs: seq<Coin>) {
    forall i :: 1 <= i < |cs| ==> !Before(cs[i], cs[i - 1])
  }

  lemma {:induction false} InsertOrders(c: Coin, cs: seq<Coin>)
    requires Ordered(cs)
    ensures Ordered(Insert(c, cs))
    ensures Insert(c, cs)[0] == c || (cs != [] && Insert(c, cs)[0] == cs[0])
  {
    hide Less;
    if cs != [] && Less(cs[0].denom, c.denom) {
      var t := cs[1..];
      assert Ordered(t) by {
        forall i | 1 <= i < |t| ensures !Before(t[i], t[i - 1]) { assert !Before(cs[i + 1], cs[i + 1 - 1]); }
      }
      InsertOrders(c, t);
      var r := [cs[0]] + Insert(c, t);
      NotBoth(cs[0].denom, c.denom);
      assert t != [] ==> !Before(cs[1], cs[1 - 1]);
      forall i | 1 <= i < |r| ensures !Before(r[i], r[i - 1]) {
        if i > 1 { assert !Before(Insert(c, t)[i - 1], Insert(c, t)[i - 1 - 1]); }
      }
    } else {
      var r := [c] + cs;
      forall i | 1 <= i < |r| ensures !Before(r[i], r[i - 1]) {
        if i > 1 { assert !Before(cs[i - 1], cs[i - 1 - 1]); }
      }
    }
  }

  lemma NotBoth(a: string, b: string)
    requires Less(a, b)
    ensures !Less(b, a)
  {
    LessIrreflexive(a);
    if Less(b, a) { LessTransitive(a, b, a); }
  }

  /** Sorting sorts. */
  lemma {:induction false} SortOrders(cs: seq<Coin>)
    ensures Ordered(SortByDenom(cs))
  {
    if cs != [] {
      SortOrders(cs[1..]);
      InsertOrders(cs[0], SortByDenom(cs[1..]));
    }
  }

  lemma {:induction false} OrderedFirst(cs: seq<Coin>, j: nat)
    requires Ordered(cs) && j < |cs|
    ensures !Before(cs[j], cs[0])
  {
    hide Less;
    if j == 0 {
      LessIrreflexive(cs[0].denom);
    } else {
      OrderedFirst(cs, j - 1);
      assert !Before(cs[j], cs[j - 1]);
      var x, y, z := cs[0].denom, cs[j - 1].denom, cs[j].denom;
      LessTotal(x, y);
      if Less(z, x) && Less(x, y) { LessTransitive(z, x, y); }
    }
  }

  lemma SameFirst(a: seq<Coin>, b: seq<Coin>)
    requires Ordered(a) && Sorted(b) && multiset(a) == multiset(b) && a != []
    ensures b != [] && a[0] == b[0]
  {
    hide Less, Ordered;
    assert a[0] in multiset(b);
    var i :| 0 <= i < |b| && b[i] == a[0];
    assert b[0] in multiset(a);
    var j :| 0 <= j < |a| && a[j] == b[0];
    OrderedFirst(a, j);
    if i > 0 { assert Before(b[0], b[i]); }
  }

  lemma SameRest(a: seq<Coin>, b: seq<Coin>)
    requires a != [] && b != [] && a[0] == b[0] && multiset(a) == multiset(b)
    ensures multiset(a[1..]) == multiset(b[1..])
  {
    assert a == [a[0]] + a[1..] && b == [b[0]] + b[1..];
    assert multiset(a) == multiset{a[0]} + multiset(a[1..]);
    assert multiset(b) == multiset{b[0]} + multiset(b[1..]);
    assert multiset(a[1..]) == multiset(a) - multiset{a[0]};
    assert multiset(b[1..]) == multiset(b) - multiset{b[0]};
  }

  lemma OrderedRest(a: seq<Coin>)
    requires a != [] && Ordered(a)
    ensures Ordered(a[1..])
  {
    hide Before;
    forall k | 1 <= k < |a[1..]| ensures !Before(a[1..][k], a[1..][k - 1]) {
      assert !Before(a[k + 1], a[k + 1 - 1]);
    }
  }

  /** A list that is ordered and holds the coins of a sorted list is that list. */
  lemma {:induction false} OrderedUnique(a: seq<Coin>, b: seq<Coin>)
    requires Ordered(a) && Sorted(b) && multiset(a) == multiset(b)
    ensures a == b
    decreases |a|
  {
    hide Ordered, Before;
    if a == [] {
      assert |multiset(b)| == 0;
    } else {
      SameFirst(a, b);
      SameRest(a, b);
      OrderedRest(a);
      OrderedUnique(a[1..], b[1..]);
      assert a == [a[0]] + a[1..] && b == [b[0]] + b[1..];
    }
  }

  /** Sorting gives a set exactly when the coins are its coins, in whatever order. */
  lemma SortIff(cs: seq<Coin>, r: seq<Coin>)
    requires Sorted(r)
    ensures SortByDenom(cs) == r <==> multiset(cs) == multiset(r)
  {
    hide SortByDenom, Ordered, Sorted;
    SortKeeps(cs);
    SortOrders(cs);
    if multiset(cs) == multiset(r) {
      OrderedUnique(SortByDenom(cs), r);
    }
  }

  ghost predicate Distinct(cs: seq<Coin>) {
    forall i, j :: 0 <= i < j < |cs| ==> cs[i].denom != cs[j].denom
  }

  /** A coin is fit for its place: the first denom must match the pattern, any other be lower case. */
  predicate Placed(c: Coin, first: bool) {
    c.amount > 0 && if first then ValidDenom(c.denom) else IsLower(c.denom)
  }

  /** The denom of c is before that of every other coin. */
  ghost predicate IsLeast(cs: seq<Coin>, c: Coin) {
    forall x :: x in cs ==> x == c || Before(c, x)
  }

  ghost predicate AllPlaced(cs: seq<Coin>) {
    forall c :: c in cs ==> Placed(c, IsLeast(cs, c))
  }

  /** How many coins have this denom. */
  function Occurs(cs: seq<Coin>, d: string): nat {
    if cs == [] then 0 else (if cs[0].denom == d then 1 else 0) + Occurs(cs[1..], d)
  }

  ghost predicate AtMostOnce(cs: seq<Coin>) { forall d :: Occurs(cs, d) <= 1 }

  lemma {:induction false} OccursIff(cs: seq<Coin>, d: string)
    ensures Occurs(cs, d) > 0 <==> exists i :: 0 <= i < |cs| && cs[i].denom == d
  {
    if cs != [] {
      OccursIff(cs[1..], d);
      if exists i :: 0 <= i < |cs| && cs[i].denom == d {
        var i :| 0 <= i < |cs| && cs[i].denom == d;
        if i > 0 { assert cs[1..][i - 1] == cs[i]; }
      }
      if exists i :: 0 <= i < |cs[1..]| && cs[1..][i].denom == d {
        var i :| 0 <= i < |cs[1..]| && cs[1..][i].denom == d;
        assert cs[i + 1] == cs[1..][i];
      }
    }
  }

  lemma {:induction false} DistinctIff(cs: seq<Coin>)
    ensures Distinct(cs) <==> AtMostOnce(cs)
  {
    if cs != [] {
      var c, t := cs[0], cs[1..];
      DistinctIff(t);
      OccursIff(t, c.denom);
      DistinctCons(cs);
      hide Distinct;
      if AtMostOnce(cs) {
        forall d ensures Occurs(t, d) <= 1 { assert Occurs(cs, d) <= 1; }
        assert Occurs(cs, c.denom) <= 1;
      }
      if AtMostOnce(t) && Occurs(t, c.denom) == 0 {
        forall d ensures Occurs(cs, d) <= 1 { assert Occurs(t, d) <= 1; }
      }
    }
  }

  lemma DistinctCons(cs: seq<Coin>)
    requires cs != []
    ensures Distinct(cs) <==> Distinct(cs[1..]) && !exists i :: 0 <= i < |cs[1..]| && cs[1..][i].denom == cs[0].denom
  {
    var t := cs[1..];
    if Distinct(cs) {
      forall i, j | 0 <= i < j < |t| ensures t[i].denom != t[j].denom { assert cs[i + 1].denom != cs[j + 1].denom; }
      forall i | 0 <= i < |t| ensures t[i].denom != cs[0].denom { assert cs[0].denom != cs[i + 1].denom; }
    }
    if Distinct(t) && !exists i :: 0 <= i < |t| && t[i].denom == cs[0].denom {
      forall i, j | 0 <= i < j < |cs| ensures cs[i].denom != cs[j].denom {
        assert t[j - 1] == cs[j];
        if i > 0 { assert t[i - 1] == cs[i]; }
      }
    }
  }

  lemma {:induction false} InsertOccurs(c: Coin, cs: seq<Coin>, d: string)
    ensures Occurs(Insert(c, cs), d) == (if c.denom == d then 1 else 0) + Occurs(cs, d)
  {
    hide Less;
    if cs != [] && Less(cs[0].denom, c.denom) {
      InsertOccurs(c, cs[1..], d);
      assert ([cs[0]] + Insert(c, cs[1..]))[1..] == Insert(c, cs[1..]);
    } else {
      assert ([c] + cs)[1..] == cs;
    }
  }

  lemma {:induction false} SortOccurs(cs: seq<Coin>, d: string)
    ensures Occurs(SortByDenom(cs), d) == Occurs(cs, d)
  {
    if cs != [] {
      SortOccurs(cs[1..], d);
      InsertOccurs(cs[0], SortByDenom(cs[1..]), d);
    }
  }

  lemma SortDistinct(cs: seq<Coin>)
    ensures Distinct(SortByDenom(cs)) <==> Distinct(cs)
  {
    hide Distinct, SortByDenom, Occurs;
    DistinctIff(cs);
    DistinctIff(SortByDenom(cs));
    forall d ensures Occurs(SortByDenom(cs), d) == Occurs(cs, d) { SortOccurs(cs, d); }
    if AtMostOnce(cs) {
      forall d ensures Occurs(SortByDenom(cs), d) <= 1 { assert Occurs(cs, d) <= 1; }
    }
    if AtMostOnce(SortByDenom(cs)) {
      forall d ensures Occurs(cs, d) <= 1 { assert Occurs(SortByDenom(cs), d) <= 1; }
    }
  }

  lemma DistinctOrderedSorted(cs: seq<Coin>)
    requires Ordered(cs) && Distinct(cs)
    ensures Sorted(cs)
  {
    hide Less;
    forall i | 1 <= i < |cs| ensures Before(cs[i - 1], cs[i]) {
      assert cs[i - 1].denom != cs[i].denom && !Before(cs[i], cs[i - 1]);
      LessTotal(cs[i - 1].denom, cs[i].denom);
    }
    NeighboursSorted(cs);
  }

  lemma SortedDistinct(cs: seq<Coin>)
    requires Sorted(cs)
    ensures Distinct(cs)
  {
    forall i, j | 0 <= i < j < |cs| ensures cs[i].denom != cs[j].denom {
      assert Before(cs[i], cs[j]);
      LessIrreflexive(cs[i].denom);
    }
  }

  /** In a sorted list the first coin is the least, and no other is. */
  lemma LeastIsFirst(cs: seq<Coin>, i: nat)
    requires Sorted(cs) && i < |cs|
    ensures IsLeast(cs, cs[i]) <==> i == 0
  {
    hide Less;
    if i > 0 {
      assert Before(cs[0], cs[i]);
      NotBoth(cs[0].denom, cs[i].denom);
      LessIrreflexive(cs[0].denom);
      assert cs[0] in cs && cs[0] != cs[i];
    } else {
      forall x | x in cs ensures x == cs[0] || Before(cs[0], x) {
        var j :| 0 <= j < |cs| && cs[j] == x;
        if j > 0 { assert Before(cs[0], cs[j]); }
      }
    }
  }

  /** On a sorted list validity is a property of its coins. */
  lemma SortedValidIff(cs: seq<Coin>)
    requires Sorted(cs)
    ensures IsValid(cs) <==> AllPlaced(cs)
  {
    hide Less, ValidDenom, IsLower, IsLeast;
    forall i | 0 <= i < |cs| ensures IsLeast(cs, cs[i]) <==> i == 0 { LeastIsFirst(cs, i); }
    if IsValid(cs) {
      forall c | c in cs ensures Placed(c, IsLeast(cs, c)) {
        var i :| 0 <= i < |cs| && cs[i] == c;
      }
    }
    if AllPlaced(cs) && cs != [] {
      assert cs[0] in cs;
      forall i | 1 <= i < |cs| ensures IsLower(cs[i].denom) && Before(cs[i - 1], cs[i]) && cs[i].amount > 0 {
        assert cs[i] in cs && Placed(cs[i], IsLeast(cs, cs[i]));
        assert Before(cs[i - 1], cs[i]);
      }
    }
  }

  lemma SameCoins(a: seq<Coin>, b: seq<Coin>)
    requires multiset(a) == multiset(b)
    ensures AllPlaced(a) <==> AllPlaced(b)
  {
    forall c ensures c in a <==> c in b { assert c in a <==> c in multiset(a); assert c in b <==> c in multiset(b); }
    forall c ensures IsLeast(a, c) <==> IsLeast(b, c) { }
  }

  /**
   A set is built exactly when, of the coins that are not zero, the denoms are distinct, the amounts
   positive, the least denom matches the pattern and the others are lower case.
   */
  lemma NewCoinsReturnsIff(cs: seq<Coin>)
    ensures NewCoins(cs).Some? <==> Distinct(NonZero(cs)) && AllPlaced(NonZero(cs))
  {
    hide SortByDenom, IsValid, AllPlaced, Distinct;
    var nz := NonZero(cs);
    var sorted := SortByDenom(nz);
    SortKeeps(nz);
    SortOrders(nz);
    SortDistinct(nz);
    SameCoins(sorted, nz);
    if Distinct(sorted) {
      DistinctOrderedSorted(sorted);
      SortedValidIff(sorted);
    }
    if IsValid(sorted) {
      ValidIsCanonical(sorted);
      SortedDistinct(sorted);
    }
  }

  /** A set built by NewCoins is canonical and means what its arguments meant. */
  lemma NewCoinsMeans(cs: seq<Coin>, r: seq<Coin>)
    requires NewCoins(cs) == Some(r)
    ensures Canonical(r) && AllPositive(r) && SameTotals(cs, r)
  {
    ValidIsCanonical(r);
    forall d ensures Total(cs, d) == Total(r, d) {
      SortTotal(NonZero(cs), d);
      NonZeroKeepsTotals(cs, d);
    }
  }

  /** Neither the order of the arguments nor their zero coins matter: equal totals give the same set. */
  lemma NewCoinsUnique(a: seq<Coin>, b: seq<Coin>, r: seq<Coin>, s: seq<Coin>)
    requires NewCoins(a) == Some(r) && NewCoins(b) == Some(s)
    requires SameTotals(a, b)
    ensures r == s
  {
    NewCoinsMeans(a, r);
    NewCoinsMeans(b, s);
    forall d ensures Total(r, d) == Total(s, d) {
      assert Total(a, d) == Total(b, d);
    }
    CanonicalUnique(r, s);
  }

  // ------------------------------------------------------------- truncation

  const ONE: int := Decimals.ONE

  datatype Parts = Parts(truncated: Coin, change: Coin)

  /** One DecCoin into a whole Coin and a DecCoin of change; the constructors panic on bad denoms and negative amounts. */
  function TruncateCoin(c: Coin): Option<Parts> {
    var whole :- Decimals.TruncateInt(c.amount);
    var rest :- Decimals.Sub(c.amount, whole * ONE);
    if !ValidDenom(c.denom) || whole < 0 || rest < 0 then None
    else Some(Parts(Coin(c.denom, whole), Coin(c.denom, rest)))
  }

  datatype Splits = Splits(truncated: seq<Coin>, change: seq<Coin>)

  function AddNonZero(cs: seq<Coin>, c: Coin, limit: int): Option<seq<Coin>> {
    if c.amount == 0 then Some(cs) else SafeAdd(cs, [c], limit)
  }

  function TruncateFrom(acc: Splits, cs: seq<Coin>): Option<Splits>
    decreases |cs|
  {
    if cs == [] then Some(acc)
    else
      var s :- TruncateCoin(cs[0]);
      var t :- AddNonZero(acc.truncated, s.truncated, INT_LIMIT);
      var c :- AddNonZero(acc.change, s.change, DEC_LIMIT);
      TruncateFrom(Splits(t, c), cs[1..])
  }

  method TruncateDecimal(cs: seq<Coin>) returns (r: Option<Splits>)
    ensures r == TruncateFrom(Splits([], []), cs)
  {
    var acc := Splits([], []);
    assert cs[0..] == cs;
    for i := 0 to |cs|
      invariant TruncateFrom(acc, cs[i..]) == TruncateFrom(Splits([], []), cs)
    {
      assert cs[i..][0] == cs[i] && cs[i..][1..] == cs[i + 1..];
      var s := TruncateCoin(cs[i]);
      if s.None? { return None; }
      var t := AddNonZero(acc.truncated, s.value.truncated, INT_LIMIT);
      if t.None? { return None; }
      var c := AddNonZero(acc.change, s.value.change, DEC_LIMIT);
      if c.None? { return None; }
      acc := Splits(t.value, c.value);
    }
    return Some(acc);
  }

  /** A coin can be split exactly when its denom is well formed, it is not negative and its whole part is an Int. */
  lemma TruncateCoinIff(c: Coin)
    requires Abs(c.amount) < DEC_LIMIT
    ensures TruncateCoin(c).Some? <==> ValidDenom(c.denom) && 0 <= c.amount < INT_LIMIT * ONE
    ensures TruncateCoin(c).Some? ==>
              var s := TruncateCoin(c).value;
              && s.truncated.denom == c.denom == s.change.denom
              && s.truncated.amount * ONE + s.change.amount == c.amount
              && 0 <= s.truncated.amount && 0 <= s.change.amount < ONE
  {
    hide ValidDenom;
    QuoMeans(c.amount, ONE);
  }

  lemma AddNonZeroMeans(cs: seq<Coin>, c: Coin, limit: int, r: seq<Coin>)
    requires Canonical(cs) && AddNonZero(cs, c, limit) == Some(r)
    ensures Canonical(r)
    ensures forall d :: Total(r, d) == Total(cs, d) + Total([c], d)
  {
    if c.amount != 0 {
      MergeCanonical(cs, [c]);
      MergeSameTotals(cs, [c]);
    }
  }

  lemma SingleTotal(c: Coin, d: string)
    ensures Total([c], d) == if c.denom == d then c.amount else 0
  {
    assert Total([], d) == 0;
    assert [c][1..] == [];
  }

  /** Conservation: for every denom, whole coins plus change are the original total; both results are canonical. */
  lemma {:induction false} TruncateConserves(acc: Splits, cs: seq<Coin>, r: Splits)
    requires Canonical(acc.truncated) && Canonical(acc.change)
    requires forall i :: 0 <= i < |cs| ==> Abs(cs[i].amount) < DEC_LIMIT
    requires TruncateFrom(acc, cs) == Some(r)
    ensures Canonical(r.truncated) && Canonical(r.change)
    ensures forall d :: Total(r.truncated, d) * ONE + Total(r.change, d)
                     == Total(acc.truncated, d) * ONE + Total(acc.change, d) + Total(cs, d)
    decreases |cs|
  {
    if cs != [] {
      var c := cs[0];
      var s := TruncateCoin(c).value;
      var t := AddNonZero(acc.truncated, s.truncated, INT_LIMIT).value;
      var h := AddNonZero(acc.change, s.change, DEC_LIMIT).value;
      TruncateCoinIff(c);
      AddNonZeroMeans(acc.truncated, s.truncated, INT_LIMIT, t);
      AddNonZeroMeans(acc.change, s.change, DEC_LIMIT, h);
      TruncateConserves(Splits(t, h), cs[1..], r);
      forall d ensures Total(r.truncated, d) * ONE + Total(r.change, d)
                    == Total(acc.truncated, d) * ONE + Total(acc.change, d) + Total(cs, d)
      {
        SingleTotal(s.truncated, d);
        SingleTotal(s.change, d);
        assert Total(cs, d) == (if c.denom == d then c.amount else 0) + Total(cs[1..], d);
      }
    }
  }

  /** On a sorted input every change coin is a proper fraction. */
  lemma {:induction false} ChangeBelowOne(acc: Splits, cs: seq<Coin>, r: Splits)
    requires Canonical(acc.truncated) && Canonical(acc.change) && Sorted(cs)
    requires forall i :: 0 <= i < |cs| ==> Abs(cs[i].amount) < DEC_LIMIT
    requires forall d :: 0 <= Total(acc.change, d) < ONE
    requires forall i :: 0 <= i < |cs| ==> Total(acc.change, cs[i].denom) == 0
    requires TruncateFrom(acc, cs) == Some(r)
    ensures forall d :: 0 <= Total(r.change, d) < ONE
    decreases |cs|
  {
    if cs != [] {
      var c := cs[0];
      var s := TruncateCoin(c).value;
      var t := AddNonZero(acc.truncated, s.truncated, INT_LIMIT).value;
      var h := AddNonZero(acc.change, s.change, DEC_LIMIT).value;
      TruncateCoinIff(c);
      AddNonZeroMeans(acc.truncated, s.truncated, INT_LIMIT, t);
      AddNonZeroMeans(acc.change, s.change, DEC_LIMIT, h);
      SortedTail(cs);
      forall d ensures 0 <= Total(h, d) < ONE {
        SingleTotal(s.change, d);
      }
      forall i | 0 <= i < |cs[1..]| ensures Total(h, cs[1..][i].denom) == 0 {
        assert Before(cs[0], cs[i + 1]);
        LessIrreflexive(c.denom);
        SingleTotal(s.change, cs[i + 1].denom);
      }
      ChangeBelowOne(Splits(t, h), cs[1..], r);
    }
  }

  /** `TruncateDecimal` loses nothing, for any list of coins: sorted or not, with or without duplicates. */
  lemma TruncateDecimalConserves(cs: seq<Coin>, r: Splits)
    requires forall i :: 0 <= i < |cs| ==> Abs(cs[i].amount) < DEC_LIMIT
    requires TruncateFrom(Splits([], []), cs) == Some(r)
    ensures Canonical(r.truncated) && Canonical(r.change)
    ensures forall d :: Total(r.truncated, d) * ONE + Total(r.change, d) == Total(cs, d)
    ensures Sorted(cs) ==> forall d :: 0 <= Total(r.change, d) < ONE
  {
    TruncateConserves(Splits([], []), cs, r);
    if Sorted(cs) {
      ChangeBelowOne(Splits([], []), cs, r);
    }
  }
}
