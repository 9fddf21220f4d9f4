/**
 The balance check of a multi-send (modules/bank/types.go): every input and output must be valid
 on its own and the totals must agree. Comparing the totals can panic, so a check has three outcomes.
 */
module Bank {
  import opened Arith
  import opened Text
  import opened Coins
  import opened CoinSets
  import opened CoinRules

  /** An Input or an Output: both carry an address and a coin set and are validated alike. */
  datatype Entry = Entry(address: string, coins: seq<Coin>)

  datatype Verdict = Accepted | Rejected | Panicked

  /** `ValidateBasic` of an Input or Output; the address decoder is a parameter. */
  predicate EntryValid(isAddress: string -> bool, e: Entry) {
    isAddress(e.address) && e.coins != [] && IsValid(e.coins) && AllPositive(e.coins)
  }

  // ------------------------------------------------------- comparing totals

  datatype Comparison = Same | Different | DenomPanic

  /** Coin by coin; `Coin.IsEqual` panics when two denoms differ. */
  function CompareSorted(a: seq<Coin>, b: seq<Coin>): Comparison
    requires |a| == |b|
  {
    if a == [] then Same
    else if a[0].denom != b[0].denom then DenomPanic
    else if a[0].amount != b[0].amount then Different
    else CompareSorted(a[1..], b[1..])
  }

  function Compare(a: seq<Coin>, b: seq<Coin>): Comparison {
    if |a| != |b| then Different
    else
      SortLength(a); SortLength(b);
      CompareSorted(SortByDenom(a), SortByDenom(b))
  }

  method IsEqual(a: seq<Coin>, b: seq<Coin>) returns (r: Comparison)
    ensures r == Compare(a, b)
  {
    if |a| != |b| { return Different; }
    SortLength(a);
    SortLength(b);
    var x, y := SortByDenom(a), SortByDenom(b);
    assert x[0..] == x && y[0..] == y;
    for i := 0 to |x|
      invariant CompareSorted(x[i..], y[i..]) == CompareSorted(x, y)
    {
      assert x[i..][1..] == x[i + 1..] && y[i..][1..] == y[i + 1..];
      if x[i].denom != y[i].denom { return DenomPanic; }
      if x[i].amount != y[i].amount { return Different; }
    }
    return Same;
  }

  /** a and b agree up to k and have different denoms there. */
  ghost predicate DenomsPartAt(a: seq<Coin>, b: seq<Coin>, k: nat) {
    k < |a| && k < |b| && a[..k] == b[..k] && a[k].denom != b[k].denom
  }

  lemma {:induction false} CompareSortedMeans(a: seq<Coin>, b: seq<Coin>)
    requires |a| == |b|
    ensures CompareSorted(a, b) == Same <==> a == b
    ensures CompareSorted(a, b) == DenomPanic <==> exists k: nat :: DenomsPartAt(a, b, k)
  {
    if a != [] {
      CompareSortedMeans(a[1..], b[1..]);
      assert a == [a[0]] + a[1..] && b == [b[0]] + b[1..];
      forall k: nat | DenomsPartAt(a, b, k) && k > 0 ensures a[0] == b[0] {
        assert a[..k][0] == b[..k][0];
      }
      if a[0] == b[0] {
        PartsShift(a, b);
      } else {
        if a[0].denom != b[0].denom {
          assert DenomsPartAt(a, b, 0);
        }
      }
    }
  }

  lemma PartsShift(a: seq<Coin>, b: seq<Coin>)
    requires |a| == |b| > 0 && a[0] == b[0]
    ensures (exists k: nat :: DenomsPartAt(a, b, k)) <==> (exists k: nat :: DenomsPartAt(a[1..], b[1..], k))
  {
    if exists k: nat :: DenomsPartAt(a, b, k) {
      var k: nat :| DenomsPartAt(a, b, k);
      assert k > 0;
      assert a[1..][..k - 1] == a[..k][1..] && b[1..][..k - 1] == b[..k][1..];
      assert DenomsPartAt(a[1..], b[1..], k - 1);
    }
    if exists k: nat :: DenomsPartAt(a[1..], b[1..], k) {
      var k: nat :| DenomsPartAt(a[1..], b[1..], k);
      assert a[..k + 1] == [a[0]] + a[1..][..k] && b[..k + 1] == [b[0]] + b[1..][..k];
      assert DenomsPartAt(a, b, k + 1);
    }
  }

  // --------------------------------------------------------------- the check

  /** The running total of the entries, or the reason there is none. */
  datatype Sum = Sum(coins: seq<Coin>) | Invalid | Overflow

  function AddUp(isAddress: string -> bool, acc: seq<Coin>, es: seq<Entry>): Sum
    decreases |es|
  {
    if es == [] then Sum(acc)
    else if !EntryValid(isAddress, es[0]) then Invalid
    else
      match SafeAdd(acc, es[0].coins, INT_LIMIT)
      case None => Overflow
      case Some(t) => AddUp(isAddress, t, es[1..])
  }

  function Judge(a: Sum, b: Sum): Verdict {
    match a
    case Invalid => Rejected
    case Overflow => Panicked
    case Sum(x) =>
      match b
      case Invalid => Rejected
      case Overflow => Panicked
      case Sum(y) =>
        match Compare(x, y)
        case Same => Accepted
        case Different => Rejected
        case DenomPanic => Panicked
  }

  function Validate(isAddress: string -> bool, inputs: seq<Entry>, outputs: seq<Entry>): Verdict {
    Judge(AddUp(isAddress, [], inputs), AddUp(isAddress, [], outputs))
  }

  method AddUpEntries(isAddress: string -> bool, es: seq<Entry>) returns (s: Sum)
    ensures s == AddUp(isAddress, [], es)
  {
    var total: seq<Coin> := [];
    assert es[0..] == es;
    for i := 0 to |es|
      invariant AddUp(isAddress, total, es[i..]) == AddUp(isAddress, [], es)
    {
      assert es[i..][0] == es[i] && es[i..][1..] == es[i + 1..];
      if !EntryValid(isAddress, es[i]) { return Invalid; }
      var t := SafeAdd(total, es[i].coins, INT_LIMIT);
      if t.None? { return Overflow; }
      total := t.value;
    }
    return Sum(total);
  }

  method ValidateInputsOutputs(isAddress: string -> bool, inputs: seq<Entry>, outputs: seq<Entry>) returns (v: Verdict)
    ensures v == Validate(isAddress, inputs, outputs)
  {
    var totalIn := AddUpEntries(isAddress, inputs);
    if totalIn.Invalid? { return Rejected; }
    if totalIn.Overflow? { return Panicked; }
    var totalOut := AddUpEntries(isAddress, outputs);
    if totalOut.Invalid? { return Rejected; }
    if totalOut.Overflow? { return Panicked; }
    var r := IsEqual(totalIn.coins, totalOut.coins);
    return match r case Same => Accepted case Different => Rejected case DenomPanic => Panicked;
  }

  /** `MsgMultiSend.ValidateBasic` refuses empty sides before the same check. */
  function MultiSendVerdict(isAddress: string -> bool, inputs: seq<Entry>, outputs: seq<Entry>): Verdict {
    if inputs == [] || outputs == [] then Rejected else Validate(isAddress, inputs, outputs)
  }

  method ValidateMultiSend(isAddress: string -> bool, inputs: seq<Entry>, outputs: seq<Entry>) returns (v: Verdict)
    ensures v == MultiSendVerdict(isAddress, inputs, outputs)
  {
    if |inputs| == 0 { return Rejected; }
    if |outputs| == 0 { return Rejected; }
    v := ValidateInputsOutputs(isAddress, inputs, outputs);
  }

  // ---------------------------------------------------------------- meaning

  function AllCoins(es: seq<Entry>): seq<Coin> {
    if es == [] then [] else es[0].coins + AllCoins(es[1..])
  }

  ghost predicate AllEntriesValid(isAddress: string -> bool, es: seq<Entry>) {
    forall i :: 0 <= i < |es| ==> EntryValid(isAddress, es[i])
  }

  /** Every amount is an Int, as the type of a Coin's amount guarantees. */
  ghost predicate AllInts(es: seq<Entry>) {
    forall i, j :: 0 <= i < |es| && 0 <= j < |es[i].coins| ==> Abs(es[i].coins[j].amount) < INT_LIMIT
  }

  ghost predicate TotalsFit(cs: seq<Coin>) {
    forall d :: Total(cs, d) < INT_LIMIT
  }

  /** A step of the running total fits exactly when every denom's new total does. */
  lemma StepFits(acc: seq<Coin>, cs: seq<Coin>)
    requires Canonical(acc) && AllPositive(acc) && Canonical(cs) && AllPositive(cs)
    requires TotalsFit(acc) && TotalsFit(cs)
    ensures SafeAdd(acc, cs, INT_LIMIT).Some? <==> TotalsFit(Merge(acc, cs))
    ensures Canonical(Merge(acc, cs)) && AllPositive(Merge(acc, cs))
  {
    hide Merge, Total, Less;
    MergeCanonical(acc, cs);
    MergeSameTotals(acc, cs);
    FitsIff(acc, cs, INT_LIMIT);
    SumPositive(acc, cs);
    if AllFit(acc, cs, INT_LIMIT) {
      forall d ensures Total(Merge(acc, cs), d) < INT_LIMIT {
        FindCoin(acc, d);
        FindCoin(cs, d);
      }
    }
    if TotalsFit(Merge(acc, cs)) {
      forall i, j | 0 <= i < |acc| && 0 <= j < |cs| && acc[i].denom == cs[j].denom
        ensures Abs(acc[i].amount + cs[j].amount) < INT_LIMIT
      {
        TotalAt(acc, i);
        TotalAt(cs, j);
        assert Total(Merge(acc, cs), acc[i].denom) < INT_LIMIT;
      }
    }
  }

  lemma SumPositive(a: seq<Coin>, b: seq<Coin>)
    requires Canonical(a) && AllPositive(a) && Canonical(b) && AllPositive(b)
    requires Canonical(Merge(a, b))
    ensures AllPositive(Merge(a, b))
  {
    var m := Merge(a, b);
    forall i | 0 <= i < |m| ensures m[i].amount > 0 {
      TotalAt(m, i);
      MergeTotals(a, b, m[i].denom);
      TotalNonNegative(a, m[i].denom);
      TotalNonNegative(b, m[i].denom);
    }
  }

  lemma {:induction false} TotalsGrow(isAddress: string -> bool, es: seq<Entry>, d: string)
    requires AllEntriesValid(isAddress, es)
    ensures Total(AllCoins(es), d) >= 0
  {
    if es != [] {
      assert EntryValid(isAddress, es[0]);
      assert AllEntriesValid(isAddress, es[1..]);
      TotalsGrow(isAddress, es[1..], d);
      TotalConcat(es[0].coins, AllCoins(es[1..]), d);
      TotalNonNegative(es[0].coins, d);
    }
  }

  lemma EntryFits(isAddress: string -> bool, es: seq<Entry>)
    requires es != [] && AllInts(es) && EntryValid(isAddress, es[0])
    ensures Canonical(es[0].coins) && AllPositive(es[0].coins) && TotalsFit(es[0].coins)
  {
    var cs := es[0].coins;
    ValidIsCanonical(cs);
    forall d ensures Total(cs, d) < INT_LIMIT {
      FindCoin(cs, d);
    }
  }

  /** Adding up succeeds exactly when every entry is valid and no denom's grand total overflows; the sum then has those totals. */
  lemma {:induction false} AddUpIff(isAddress: string -> bool, acc: seq<Coin>, es: seq<Entry>)
    requires Canonical(acc) && AllPositive(acc) && TotalsFit(acc) && AllInts(es)
    ensures AddUp(isAddress, acc, es).Sum? <==> AllEntriesValid(isAddress, es) && TotalsFit(acc + AllCoins(es))
    ensures AddUp(isAddress, acc, es).Sum? ==>
              var t := AddUp(isAddress, acc, es).coins;
              Canonical(t) && SameTotals(t, acc + AllCoins(es))
    decreases |es|
  {
    if es == [] {
      assert acc + [] == acc;
    } else if EntryValid(isAddress, es[0]) {
      hide EntryValid, SafeAdd;
      var cs, rest := es[0].coins, es[1..];
      EntryFits(isAddress, es);
      StepFits(acc, cs);
      assert SafeAdd(acc, cs, INT_LIMIT).Some? ==> SafeAdd(acc, cs, INT_LIMIT).value == Merge(acc, cs) by { AddIsMerge(acc, cs); }
      GroupTotals(acc, cs, rest);
      assert AllCoins(es) == cs + AllCoins(rest);
      assert AllEntriesValid(isAddress, es) <==> AllEntriesValid(isAddress, rest) by {
        if AllEntriesValid(isAddress, rest) {
          forall i | 0 <= i < |es| ensures EntryValid(isAddress, es[i]) {
            if i > 0 { assert EntryValid(isAddress, rest[i - 1]); }
          }
        }
      }
      if TotalsFit(Merge(acc, cs)) {
        assert AllInts(rest);
        AddUpIff(isAddress, Merge(acc, cs), rest);
        SameTotalsFit(Merge(acc, cs) + AllCoins(rest), acc + AllCoins(es));
      } else if AllEntriesValid(isAddress, es) && TotalsFit(acc + AllCoins(es)) {
        forall d ensures Total(Merge(acc, cs), d) < INT_LIMIT {
          TotalsGrow(isAddress, rest, d);
          TotalConcat(Merge(acc, cs), AllCoins(rest), d);
          assert Total(acc + AllCoins(es), d) < INT_LIMIT;
        }
      }
    }
  }

  lemma AddIsMerge(a: seq<Coin>, b: seq<Coin>)
    ensures SafeAdd(a, b, INT_LIMIT).Some? ==> SafeAdd(a, b, INT_LIMIT).value == Merge(a, b)
  {
  }

  lemma GroupTotals(acc: seq<Coin>, cs: seq<Coin>, rest: seq<Entry>)
    ensures SameTotals(Merge(acc, cs) + AllCoins(rest), acc + (cs + AllCoins(rest)))
  {
    forall d ensures Total(Merge(acc, cs) + AllCoins(rest), d) == Total(acc + (cs + AllCoins(rest)), d) {
      MergeTotals(acc, cs, d);
      TotalConcat(Merge(acc, cs), AllCoins(rest), d);
      TotalConcat(cs, AllCoins(rest), d);
      TotalConcat(acc, cs + AllCoins(rest), d);
    }
  }

  lemma SameTotalsFit(a: seq<Coin>, b: seq<Coin>)
    requires SameTotals(a, b)
    ensures TotalsFit(a) <==> TotalsFit(b)
  {
    if TotalsFit(a) {
      forall d ensures Total(b, d) < INT_LIMIT { assert Total(a, d) == Total(b, d); }
    }
    if TotalsFit(b) {
      forall d ensures Total(a, d) < INT_LIMIT { assert Total(a, d) == Total(b, d); }
    }
  }

  /**
   The check accepts exactly when every input and output is valid, no total overflows, and for every
   denom the inputs and the outputs add up to the same amount.
   */
  lemma BalanceExact(isAddress: string -> bool, inputs: seq<Entry>, outputs: seq<Entry>)
    requires AllInts(inputs) && AllInts(outputs)
    ensures Validate(isAddress, inputs, outputs) == Accepted <==>
              && AllEntriesValid(isAddress, inputs) && AllEntriesValid(isAddress, outputs)
              && TotalsFit(AllCoins(inputs)) && TotalsFit(AllCoins(outputs))
              && SameTotals(AllCoins(inputs), AllCoins(outputs))
  {
    hide AddUp;
    var a, b := AddUp(isAddress, [], inputs), AddUp(isAddress, [], outputs);
    assert [] + AllCoins(inputs) == AllCoins(inputs) && [] + AllCoins(outputs) == AllCoins(outputs);
    AddUpIff(isAddress, [], inputs);
    AddUpIff(isAddress, [], outputs);
    if a.Sum? && b.Sum? {
      CompareTotals(a.coins, b.coins, AllCoins(inputs), AllCoins(outputs));
    }
  }

  lemma CompareTotals(x: seq<Coin>, y: seq<Coin>, xs: seq<Coin>, ys: seq<Coin>)
    requires Canonical(x) && Canonical(y) && SameTotals(x, xs) && SameTotals(y, ys)
    ensures Compare(x, y) == Same <==> SameTotals(xs, ys)
    ensures Compare(x, y) == DenomPanic <==> |x| == |y| && exists k: nat :: DenomsPartAt(x, y, k)
  {
    SortOfSorted(x);
    SortOfSorted(y);
    if |x| == |y| {
      CompareSortedMeans(x, y);
    }
    if SameTotals(xs, ys) {
      forall d ensures Total(x, d) == Total(y, d) {
        assert Total(x, d) == Total(xs, d) && Total(y, d) == Total(ys, d) && Total(xs, d) == Total(ys, d);
      }
      CanonicalUnique(x, y);
    }
    if x == y {
      forall d ensures Total(xs, d) == Total(ys, d) {
        assert Total(x, d) == Total(xs, d) && Total(y, d) == Total(ys, d);
      }
    }
  }

  /** The canonical sets of two lists have equally many coins and, where they first differ, different denoms. */
  ghost predicate PartInDenom(xs: seq<Coin>, ys: seq<Coin>) {
    exists x, y :: Canonical(x) && Canonical(y) && SameTotals(x, xs) && SameTotals(y, ys)
      && |x| == |y| && exists k: nat :: DenomsPartAt(x, y, k)
  }

  /** The entries before the first invalid one. */
  function ValidPrefix(isAddress: string -> bool, es: seq<Entry>): seq<Entry> {
    if es == [] || !EntryValid(isAddress, es[0]) then [] else [es[0]] + ValidPrefix(isAddress, es[1..])
  }

  /** It is a prefix, it is valid, and it ends at the first invalid entry or at the end. */
  lemma {:induction false} ValidPrefixMeans(isAddress: string -> bool, es: seq<Entry>)
    ensures var p := ValidPrefix(isAddress, es);
            && p <= es && AllEntriesValid(isAddress, p)
            && (|p| == |es| || !EntryValid(isAddress, es[|p|]))
            && (p == es <==> AllEntriesValid(isAddress, es))
  {
    hide EntryValid;
    if es != [] && EntryValid(isAddress, es[0]) {
      ValidPrefixMeans(isAddress, es[1..]);
      var p, q := ValidPrefix(isAddress, es), ValidPrefix(isAddress, es[1..]);
      assert es == [es[0]] + es[1..];
      assert p[1..] == q;
      if AllEntriesValid(isAddress, es[1..]) {
        forall i | 0 <= i < |es| ensures EntryValid(isAddress, es[i]) {
          if i > 0 { assert EntryValid(isAddress, es[1..][i - 1]); }
        }
      }
      forall i | 0 <= i < |p| ensures EntryValid(isAddress, p[i]) {
        if i > 0 { assert p[i] == q[i - 1]; }
      }
    }
  }

  /** Adding up entries overflows exactly as adding up those before the first invalid one. */
  lemma {:induction false} OverflowOfPrefix(isAddress: string -> bool, acc: seq<Coin>, es: seq<Entry>)
    ensures AddUp(isAddress, acc, es).Overflow? <==> AddUp(isAddress, acc, ValidPrefix(isAddress, es)).Overflow?
    decreases |es|
  {
    hide EntryValid, SafeAdd;
    if es != [] && EntryValid(isAddress, es[0]) {
      var p := ValidPrefix(isAddress, es);
      assert p[0] == es[0] && p[1..] == ValidPrefix(isAddress, es[1..]);
      if SafeAdd(acc, es[0].coins, INT_LIMIT).Some? {
        OverflowOfPrefix(isAddress, SafeAdd(acc, es[0].coins, INT_LIMIT).value, es[1..]);
      }
    }
  }

  lemma {:induction false} ValidAddsUp(isAddress: string -> bool, acc: seq<Coin>, es: seq<Entry>)
    requires AllEntriesValid(isAddress, es)
    ensures !AddUp(isAddress, acc, es).Invalid?
    decreases |es|
  {
    hide EntryValid;
    if es != [] {
      assert EntryValid(isAddress, es[0]) && AllEntriesValid(isAddress, es[1..]);
      if SafeAdd(acc, es[0].coins, INT_LIMIT).Some? {
        ValidAddsUp(isAddress, SafeAdd(acc, es[0].coins, INT_LIMIT).value, es[1..]);
      }
    }
  }

  /** The totals of the entries before the first invalid one overflow. */
  ghost predicate PrefixOverflows(isAddress: string -> bool, es: seq<Entry>) {
    !TotalsFit(AllCoins(ValidPrefix(isAddress, es)))
  }

  /** The three outcomes of adding up one side. */
  lemma SideIff(isAddress: string -> bool, es: seq<Entry>)
    requires AllInts(es)
    ensures var a := AddUp(isAddress, [], es);
            && (a.Overflow? <==> PrefixOverflows(isAddress, es))
            && (a.Sum? <==> AllEntriesValid(isAddress, es) && !PrefixOverflows(isAddress, es))
            && (a.Sum? ==> Canonical(a.coins) && SameTotals(a.coins, AllCoins(es)))
  {
    hide AddUp, EntryValid;
    var p := ValidPrefix(isAddress, es);
    ValidPrefixMeans(isAddress, es);
    OverflowOfPrefix(isAddress, [], es);
    ValidAddsUp(isAddress, [], p);
    assert AllInts(p);
    assert [] + AllCoins(p) == AllCoins(p) && [] + AllCoins(es) == AllCoins(es);
    AddUpIff(isAddress, [], p);
    AddUpIff(isAddress, [], es);
  }

  lemma PartOfTotals(x: seq<Coin>, y: seq<Coin>, xs: seq<Coin>, ys: seq<Coin>)
    requires Canonical(x) && Canonical(y) && SameTotals(x, xs) && SameTotals(y, ys)
    ensures PartInDenom(xs, ys) <==> |x| == |y| && exists k: nat :: DenomsPartAt(x, y, k)
  {
    if PartInDenom(xs, ys) {
      var x', y' :| Canonical(x') && Canonical(y') && SameTotals(x', xs) && SameTotals(y', ys)
        && |x'| == |y'| && exists k: nat :: DenomsPartAt(x', y', k);
      SameSet(x, x', xs);
      SameSet(y, y', ys);
    }
  }

  lemma SameSet(x: seq<Coin>, y: seq<Coin>, cs: seq<Coin>)
    requires Canonical(x) && Canonical(y) && SameTotals(x, cs) && SameTotals(y, cs)
    ensures x == y
  {
    forall d ensures Total(x, d) == Total(y, d) {
      assert Total(x, d) == Total(cs, d) && Total(y, d) == Total(cs, d);
    }
    CanonicalUnique(x, y);
  }

  /**
   The check panics in exactly three cases: the inputs before the first invalid one overflow; all inputs
   are valid and the same holds of the outputs; or everything is valid and fits, and the two sides part
   in a denom, with equally many denoms and different ones where they first differ.
   */
  lemma PanicIff(isAddress: string -> bool, inputs: seq<Entry>, outputs: seq<Entry>)
    requires AllInts(inputs) && AllInts(outputs)
    ensures Validate(isAddress, inputs, outputs) == Panicked <==>
              || PrefixOverflows(isAddress, inputs)
              || (AllEntriesValid(isAddress, inputs) && PrefixOverflows(isAddress, outputs))
              || (&& AllEntriesValid(isAddress, inputs) && AllEntriesValid(isAddress, outputs)
                  && PartInDenom(AllCoins(inputs), AllCoins(outputs)))
  {
    hide AddUp, PartInDenom, Compare, AllEntriesValid, PrefixOverflows;
    var a, b := AddUp(isAddress, [], inputs), AddUp(isAddress, [], outputs);
    SideIff(isAddress, inputs);
    SideIff(isAddress, outputs);
    if a.Sum? && b.Sum? {
      CompareTotals(a.coins, b.coins, AllCoins(inputs), AllCoins(outputs));
      PartOfTotals(a.coins, b.coins, AllCoins(inputs), AllCoins(outputs));
    }
  }

  /** Paying five of one denom and receiving five of another does not reject the message: it panics. */
  lemma UnbalancedCanPanic(isAddress: string -> bool, address: string)
    requires isAddress(address)
    ensures var i, o := Entry(address, [Coin("aaa", 5)]), Entry(address, [Coin("bbb", 5)]);
            MultiSendVerdict(isAddress, [i], [o]) == Panicked
  {
    var x, y := [Coin("aaa", 5)], [Coin("bbb", 5)];
    var i, o := Entry(address, x), Entry(address, y);
    assert EntryValid(isAddress, i) && EntryValid(isAddress, o);
    assert NonZero(x) == x && NonZero(y) == y;
    assert AddUp(isAddress, [], [i]) == AddUp(isAddress, x, []) == Sum(x);
    assert AddUp(isAddress, [], [o]) == AddUp(isAddress, y, []) == Sum(y);
    SortOfSorted(x);
    SortOfSorted(y);
  }
}
