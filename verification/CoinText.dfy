/**
 Printing and parsing coin sets (types/dec_coin.go, `String`, `ParseDecCoin`, `ParseDecCoins`).
 */
module CoinText {
  import opened Arith
  import opened Text
  import opened Coins
  import opened CoinRules
  import opened CoinSets
  import DecText
  import Decimals

  // --------------------------------------------------- the coin expression

  predicate IsDot(c: char) { c == '.' }

  predicate IsAmountChar(c: char) { IsDigit(c) || IsDot(c) }

  /** Every character of s[lo..hi] satisfies p. */
  predicate Span(s: string, lo: nat, hi: nat, p: char -> bool)
    requires hi <= |s|
  {
    forall x :: lo <= x < hi ==> p(s[x])
  }

  /** [[:digit:]]*[.]*[[:digit:]]+ with the dots at i..j. */
  predicate AmountParts(s: string, i: nat, j: nat) {
    i <= j < |s| && Span(s, 0, i, IsDigit) && Span(s, i, j, IsDot) && Span(s, j, |s|, IsDigit)
  }

  ghost predicate IsAmount(s: string) { exists i, j :: AmountParts(s, i, j) }

  /** ^(amount)[[:space:]]*(denom)$ matches s with these two groups. */
  ghost predicate Matches(s: string, amount: string, denom: string) {
    IsAmount(amount) && ValidDenom(denom) &&
    exists sp :: s == amount + sp + denom && Span(sp, 0, |sp|, IsSpace)
  }

  /** Where the run of p that starts at `at` ends. */
  function RunEnd(s: string, at: nat, p: char -> bool): (e: nat)
    requires at <= |s|
    ensures at <= e <= |s| && Span(s, at, e, p) && (e < |s| ==> !p(s[e]))
    decreases |s| - at
  {
    if at == |s| || !p(s[at]) then at else RunEnd(s, at + 1, p)
  }

  lemma {:induction false} RunEndIs(s: string, at: nat, e: nat, p: char -> bool)
    requires at <= e <= |s| && Span(s, at, e, p) && (e < |s| ==> !p(s[e]))
    ensures RunEnd(s, at, p) == e
    decreases e - at
  {
    if at < e {
      RunEndIs(s, at + 1, e, p);
    }
  }

  datatype Groups = Groups(amount: string, denom: string)

  /** The matcher as a left-to-right scan: digits, dots, digits, spaces, denom. */
  function Match(s: string): Option<Groups> {
    var i := RunEnd(s, 0, IsDigit);
    var j := RunEnd(s, i, IsDot);
    var k := RunEnd(s, j, IsDigit);
    var m := RunEnd(s, k, IsSpace);
    if k > 0 && IsDigit(s[k - 1]) && ValidDenom(s[m..]) then Some(Groups(s[..k], s[m..])) else None
  }

  /** What the four marks of the scan are when s is an amount, spaces and a denom. */
  lemma ScanFinds(s: string, p: nat, q: nat, n: nat, m: nat)
    requires p <= q < n <= m < |s| && IsLetter(s[m])
    requires Span(s, 0, p, IsDigit) && Span(s, p, q, IsDot) && Span(s, q, n, IsDigit) && Span(s, n, m, IsSpace)
    ensures var i := RunEnd(s, 0, IsDigit);
            var j := RunEnd(s, i, IsDot);
            RunEnd(s, j, IsDigit) == n && RunEnd(s, n, IsSpace) == m
  {
    assert !IsAmountChar(s[n]) && !IsSpace(s[m]) by { if n < m { assert IsSpace(s[n]); } }
    RunEndIs(s, n, m, IsSpace);
    if p == q {
      RunEndIs(s, 0, n, IsDigit);
      RunEndIs(s, n, n, IsDot);
      RunEndIs(s, n, n, IsDigit);
    } else {
      assert IsDot(s[p]) && IsDigit(s[q]);
      RunEndIs(s, 0, p, IsDigit);
      RunEndIs(s, p, q, IsDot);
      RunEndIs(s, q, n, IsDigit);
    }
  }

  lemma MatchComplete(s: string, amount: string, sp: string, denom: string)
    requires IsAmount(amount) && ValidDenom(denom)
    requires s == amount + sp + denom && Span(sp, 0, |sp|, IsSpace)
    ensures Match(s) == Some(Groups(amount, denom))
  {
    var p, q :| AmountParts(amount, p, q);
    var n, m := |amount|, |amount| + |sp|;
    assert forall x :: 0 <= x < n ==> s[x] == amount[x];
    assert forall x :: n <= x < m ==> s[x] == sp[x - n];
    assert s[m] == denom[0];
    ScanFinds(s, p, q, n, m);
    assert IsDigit(amount[n - 1]);
    assert s[m..] == denom && s[..n] == amount;
  }

  lemma MatchSound(s: string, g: Groups)
    requires Match(s) == Some(g)
    ensures Matches(s, g.amount, g.denom)
  {
    hide ValidDenom, RunEnd;
    var i := RunEnd(s, 0, IsDigit);
    var j := RunEnd(s, i, IsDot);
    var k := RunEnd(s, j, IsDigit);
    var m := RunEnd(s, k, IsSpace);
    var a := s[..k];
    if j < k {
      assert AmountParts(a, i, j);
    } else {
      assert !IsDot(s[k - 1]);
      assert i == k;
      assert AmountParts(a, 0, 0);
    }
    assert s == a + s[k..m] + s[m..];
    assert Span(s[k..m], 0, m - k, IsSpace);
  }

  /** The scan finds a match exactly when there is one, and there is never more than one. */
  lemma MatchIff(s: string, g: Groups)
    ensures Match(s) == Some(g) <==> Matches(s, g.amount, g.denom)
  {
    hide Match, ValidDenom, IsAmount;
    if Matches(s, g.amount, g.denom) {
      var sp :| s == g.amount + sp + g.denom && Span(sp, 0, |sp|, IsSpace);
      MatchComplete(s, g.amount, sp, g.denom);
    }
    if Match(s) == Some(g) {
      MatchSound(s, g);
    }
  }

  // ---------------------------------------------------------------- parsing

  function ParseDecCoin(coinStr: string): Option<Coin> {
    var g :- Match(TrimSpace(coinStr));
    var amount :- DecText.Parse(g.amount);
    if !ValidDenom(g.denom) || amount < 0 then None else Some(Coin(g.denom, amount))
  }

  function ParseEach(parts: seq<string>): Option<seq<Coin>> {
    if parts == [] then Some([])
    else
      var c :- ParseDecCoin(parts[0]);
      var rest :- ParseEach(parts[1..]);
      Some([c] + rest)
  }

  function ParseDecCoins(coinsStr: string): Option<seq<Coin>> {
    var s := TrimSpace(coinsStr);
    if s == [] then Some([])
    else
      var coins :- ParseEach(Split(s, ','));
      var sorted := SortByDenom(coins);
      if IsValid(sorted) then Some(sorted) else None
  }

  // --------------------------------------------------------------- printing

  function CoinString(c: Coin): string { DecText.Format(c.amount) + c.denom }

  function Join(cs: seq<Coin>): string {
    if cs == [] then "" else if |cs| == 1 then CoinString(cs[0]) else CoinString(cs[0]) + "," + Join(cs[1..])
  }

  function JoinCommas(cs: seq<Coin>): string {
    if cs == [] then "" else JoinCommas(cs[..|cs| - 1]) + (CoinString(cs[|cs| - 1]) + ",")
  }

  /** `String` appends a comma after every coin and cuts the last one off. */
  method CoinsString(cs: seq<Coin>) returns (s: string)
    ensures s == Join(cs)
  {
    if |cs| == 0 { return ""; }
    var out := "";
    for i := 0 to |cs|
      invariant out == JoinCommas(cs[..i])
    {
      var amount := DecText.String(cs[i].amount);
      out := out + (amount + cs[i].denom + ",");
      assert cs[..i + 1][..i] == cs[..i];
    }
    assert cs[..|cs|] == cs;
    JoinCommasIs(cs);
    return out[..|out| - 1];
  }

  lemma {:induction false} JoinCommasFront(c: Coin, cs: seq<Coin>)
    ensures JoinCommas([c] + cs) == CoinString(c) + "," + JoinCommas(cs)
    decreases |cs|
  {
    hide CoinString;
    var l := [c] + cs;
    if cs == [] {
      assert l[..0] == [];
    } else {
      var front, last := cs[..|cs| - 1], cs[|cs| - 1];
      assert l[..|l| - 1] == [c] + front && l[|l| - 1] == last;
      JoinCommasFront(c, front);
      Regroup(CoinString(c) + ",", JoinCommas(front), CoinString(last) + ",");
    }
  }

  lemma Regroup(a: string, b: string, c: string)
    ensures (a + b) + c == a + (b + c)
  {
  }

  lemma {:induction false} JoinCommasIs(cs: seq<Coin>)
    requires cs != []
    ensures JoinCommas(cs) == Join(cs) + ","
  {
    assert cs == [cs[0]] + cs[1..];
    JoinCommasFront(cs[0], cs[1..]);
    if |cs| == 1 {
      assert JoinCommas(cs[1..]) == "";
    } else {
      JoinCommasIs(cs[1..]);
    }
  }

  /** A printed set is its printed coins with commas between them. */
  lemma {:induction false} JoinMeans(cs: seq<Coin>)
    ensures Join(cs) == JoinWith(seq(|cs|, i requires 0 <= i < |cs| => DecText.Format(cs[i].amount) + cs[i].denom), ',')
  {
    hide DecText.Format;
    var texts := seq(|cs|, i requires 0 <= i < |cs| => DecText.Format(cs[i].amount) + cs[i].denom);
    if |cs| > 1 {
      var rest := cs[1..];
      JoinMeans(rest);
      assert texts[1..] == seq(|rest|, i requires 0 <= i < |rest| => DecText.Format(rest[i].amount) + rest[i].denom);
    }
  }

  // ------------------------------------------------------------- round trip

  lemma FormatIsAmount(n: nat)
    ensures IsAmount(DecText.Format(n))
    ensures forall i :: 0 <= i < |DecText.Format(n)| ==> IsAmountChar(DecText.Format(n)[i])
  {
    DecText.FormatParts(n);
    var w, f := DecText.Whole(n), DecText.Fraction(n);
    var s := w + "." + f;
    assert forall x :: 0 <= x < |w| ==> s[x] == w[x];
    assert forall x :: |w| < x < |s| ==> s[x] == f[x - |w| - 1];
    assert AmountParts(s, |w|, |w| + 1);
  }

  lemma CoinStringShape(c: Coin)
    requires c.amount >= 0 && ValidDenom(c.denom)
    ensures CoinString(c) != [] && TrimSpace(CoinString(c)) == CoinString(c)
    ensures ',' !in CoinString(c)
    ensures IsDigit(CoinString(c)[0]) && IsDenomChar(CoinString(c)[|CoinString(c)| - 1])
  {
    var f := DecText.Format(c.amount);
    DecText.ParseFormatUnsigned(c.amount);
    FormatIsAmount(c.amount);
    assert IsDenomChar(c.denom[|c.denom| - 1]);
    TrimKeeps(CoinString(c));
  }

  lemma ParseCoinString(c: Coin)
    requires c.amount >= 0 && ValidDenom(c.denom)
    ensures ParseDecCoin(CoinString(c)) == Some(c)
  {
    var f := DecText.Format(c.amount);
    CoinStringShape(c);
    FormatIsAmount(c.amount);
    assert CoinString(c) == f + "" + c.denom;
    MatchComplete(CoinString(c), f, "", c.denom);
    DecText.ParseFormat(c.amount);
  }

  lemma {:induction false} SplitJoin(cs: seq<Coin>)
    requires cs != []
    requires forall i :: 0 <= i < |cs| ==> cs[i].amount >= 0 && ValidDenom(cs[i].denom)
    ensures ParseEach(Split(Join(cs), ',')) == Some(cs)
  {
    hide CoinString, ParseDecCoin, Split, ValidDenom;
    CoinStringShape(cs[0]);
    ParseCoinString(cs[0]);
    var first := CoinString(cs[0]);
    assert cs == [cs[0]] + cs[1..];
    if |cs| == 1 {
      SplitWithout(first, ',');
      assert ParseEach([first][1..]) == Some([]);
    } else {
      var rest := Join(cs[1..]);
      SplitJoin(cs[1..]);
      SplitAtSeparator(first, ',', rest);
      ParseEachCons(first, Split(rest, ','));
    }
  }

  lemma ParseEachCons(first: string, rest: seq<string>)
    requires ParseDecCoin(first).Some? && ParseEach(rest).Some?
    ensures ParseEach([first] + rest) == Some([ParseDecCoin(first).value] + ParseEach(rest).value)
  {
    hide ParseDecCoin;
    assert ([first] + rest)[1..] == rest;
  }

  lemma {:induction false} JoinEnds(cs: seq<Coin>)
    requires cs != []
    requires forall i :: 0 <= i < |cs| ==> cs[i].amount >= 0 && ValidDenom(cs[i].denom)
    ensures Join(cs) != [] && IsDigit(Join(cs)[0]) && IsDenomChar(Join(cs)[|Join(cs)| - 1])
  {
    CoinStringShape(cs[0]);
    if |cs| > 1 {
      JoinEnds(cs[1..]);
      assert Join(cs)[0] == CoinString(cs[0])[0];
      assert Join(cs)[|Join(cs)| - 1] == Join(cs[1..])[|Join(cs[1..])| - 1];
    }
  }

  /** Parsing a printed set gives it back, for every valid set whose denoms all match the pattern. */
  lemma ParseJoin(cs: seq<Coin>)
    requires IsValid(cs) && AllValidDenoms(cs)
    ensures ParseDecCoins(Join(cs)) == Some(cs)
  {
    hide ParseEach, Split, ValidDenom;
    if cs == [] {
      assert TrimSpace("") == "";
    } else {
      ValidIsCanonical(cs);
      JoinEnds(cs);
      TrimKeeps(Join(cs));
      SplitJoin(cs);
      SortOfSorted(cs);
    }
  }

  // ------------------------------------------------------- what is accepted

  /** The amount as the parser takes it: digits w and, behind a point, up to 18 digits f. */
  function AmountText(w: string, f: string): string { if f == [] then w else w + "." + f }

  /** What they spell, in units of 10^-18. */
  function Value(w: string, f: string): (v: int)
    requires |f| <= 18
    ensures v >= 0
  {
    PowPositive(10, 18 - |f|);
    NumeralValue(w) * Decimals.ONE + NumeralValue(f) * Pow(10, 18 - |f|)
  }

  /** White space sp may stand between the amount and the denom. */
  ghost predicate SpellsCoin(t: string, c: Coin, w: string, f: string, sp: string) {
    && w != [] && AllDigits(w) && AllDigits(f) && |f| <= 18 && Span(sp, 0, |sp|, IsSpace) && ValidDenom(c.denom)
    && t == AmountText(w, f) + sp + c.denom
    && c.amount == Value(w, f)
  }

  lemma AmountHasNoSign(a: string)
    requires IsAmount(a)
    ensures a != [] && !DecText.IsSign(a[0])
  {
    var i, j :| AmountParts(a, i, j);
    assert IsAmountChar(a[0]);
  }

  lemma SpelledUnsigned(w: string, f: string)
    requires w != [] && !DecText.IsSign(w[0]) && |f| <= 18
    ensures DecText.Spelled(w, f) == Value(w, f)
  {
  }

  lemma SpelledIsAmount(w: string, f: string)
    requires w != [] && AllDigits(w) && AllDigits(f) && |f| <= 18
    ensures IsAmount(AmountText(w, f)) && DecText.Spells(AmountText(w, f), w, f)
  {
    var t := AmountText(w, f);
    assert forall x :: 0 <= x < |w| ==> t[x] == w[x];
    if f == [] {
      assert AmountParts(t, 0, 0);
    } else {
      assert forall x :: |w| < x < |t| ==> t[x] == f[x - |w| - 1];
      assert AmountParts(t, |w|, |w| + 1);
    }
  }

  /** An amount of the expression is a Dec exactly when it is digits, or digits, one point and 1 to 18 digits. */
  lemma AmountParses(a: string, v: int) returns (w: string, f: string)
    requires IsAmount(a) && DecText.Parse(a) == Some(v)
    ensures w != [] && AllDigits(w) && AllDigits(f) && |f| <= 18 && a == AmountText(w, f)
    ensures v == Value(w, f)
  {
    hide DecText.Parse, Value, IsAmount;
    AmountHasNoSign(a);
    DecText.ParseAcceptsIff(a, v);
    hide DecText.Spelled;
    w, f :| DecText.Spells(DecText.AfterMinus(a), w, f) && v == DecText.Spelled(w, f);
    assert w[0] == a[0];
    SpelledUnsigned(w, f);
  }

  lemma AmountAccepted(w: string, f: string)
    requires w != [] && AllDigits(w) && AllDigits(f) && |f| <= 18
    ensures DecText.Parse(AmountText(w, f))
         == Some(Value(w, f))
  {
    hide DecText.Parse, DecText.Spelled, Value, IsAmount;
    var a := AmountText(w, f);
    SpelledIsAmount(w, f);
    AmountHasNoSign(a);
    assert w[0] == a[0];
    SpelledUnsigned(w, f);
    DecText.ParseAcceptsIff(a, DecText.Spelled(w, f));
    assert DecText.Spells(DecText.AfterMinus(a), w, f);
  }

  lemma CoinAccepted(s: string, c: Coin, w: string, f: string, sp: string)
    requires SpellsCoin(TrimSpace(s), c, w, f, sp)
    ensures ParseDecCoin(s) == Some(c)
  {
    hide DecText.Parse, Value, TrimSpace, Match, ValidDenom, IsAmount, AmountText;
    SpelledIsAmount(w, f);
    AmountAccepted(w, f);
    MatchComplete(TrimSpace(s), AmountText(w, f), sp, c.denom);
  }

  lemma CoinSpelled(s: string, c: Coin) returns (w: string, f: string, sp: string)
    requires ParseDecCoin(s) == Some(c)
    ensures SpellsCoin(TrimSpace(s), c, w, f, sp)
  {
    hide DecText.Parse, Value, TrimSpace, Match, ValidDenom, IsAmount, AmountText;
    var g := Match(TrimSpace(s)).value;
    MatchSound(TrimSpace(s), g);
    sp :| TrimSpace(s) == g.amount + sp + g.denom && Span(sp, 0, |sp|, IsSpace);
    w, f := AmountParses(g.amount, c.amount);
  }

  /**
   A text is one coin exactly when, trimmed, it is digits, optionally a point and 1 to 18 digits, white
   space and a denom of the pattern; the coin has that denom and the spelled amount.
   */
  lemma ParseDecCoinIff(s: string, c: Coin)
    ensures ParseDecCoin(s) == Some(c) <==> exists w, f, sp :: SpellsCoin(TrimSpace(s), c, w, f, sp)
  {
    hide ParseDecCoin, SpellsCoin, TrimSpace;
    if ParseDecCoin(s) == Some(c) {
      var w, f, sp := CoinSpelled(s, c);
    }
    if w, f, sp :| SpellsCoin(TrimSpace(s), c, w, f, sp) {
      CoinAccepted(s, c, w, f, sp);
    }
  }

  /** Each piece is one coin of the list, in order. */
  ghost predicate PiecesAre(parts: seq<string>, ds: seq<Coin>) {
    |parts| == |ds| && forall i :: 0 <= i < |parts| ==> ParseDecCoin(parts[i]) == Some(ds[i])
  }

  lemma {:induction false} ParseEachIff(parts: seq<string>, ds: seq<Coin>)
    ensures ParseEach(parts) == Some(ds) <==> PiecesAre(parts, ds)
  {
    hide ParseDecCoin;
    if parts != [] && ds != [] {
      var p, q := parts[1..], ds[1..];
      ParseEachIff(p, q);
      assert ds == [ds[0]] + q;
      if PiecesAre(parts, ds) {
        forall i | 0 <= i < |p| ensures ParseDecCoin(p[i]) == Some(q[i]) { assert p[i] == parts[i + 1]; }
      }
      if PiecesAre(p, q) && ParseDecCoin(parts[0]) == Some(ds[0]) {
        forall i | 0 <= i < |parts| ensures ParseDecCoin(parts[i]) == Some(ds[i]) {
          if i > 0 { assert parts[i] == p[i - 1]; }
        }
      }
    }
  }

  /** The text is coins between commas, in any order, and cs is the valid set of these coins. */
  ghost predicate SpellsSet(t: string, cs: seq<Coin>, parts: seq<string>, ds: seq<Coin>) {
    && parts != [] && NoneHolds(parts, ',') && JoinWith(parts, ',') == t
    && PiecesAre(parts, ds) && multiset(ds) == multiset(cs) && IsValid(cs)
  }

  lemma SetAccepted(t: string, cs: seq<Coin>, parts: seq<string>, ds: seq<Coin>)
    requires SpellsSet(t, cs, parts, ds)
    ensures ParseEach(Split(t, ',')) == Some(ds) && SortByDenom(ds) == cs && IsValid(cs)
  {
    hide ParseEach, Split, JoinWith, NoneHolds, PiecesAre, SortByDenom, IsValid;
    SplitIff(t, ',', parts);
    ParseEachIff(parts, ds);
    ValidIsCanonical(cs);
    SortIff(ds, cs);
  }

  lemma SetSpelled(t: string, cs: seq<Coin>, ds: seq<Coin>)
    requires ParseEach(Split(t, ',')) == Some(ds) && SortByDenom(ds) == cs && IsValid(cs)
    ensures SpellsSet(t, cs, Split(t, ','), ds)
  {
    hide ParseEach, Split, JoinWith, NoneHolds, PiecesAre, SortByDenom, IsValid;
    SplitIff(t, ',', Split(t, ','));
    ParseEachIff(Split(t, ','), ds);
    SortKeeps(ds);
  }

  /**
   A text is a set of coins exactly when it is blank, which is the empty set, or when, trimmed, it is
   coins between commas: their order does not matter, and together they must be a valid set.
   */
  lemma ParseDecCoinsIff(s: string, cs: seq<Coin>)
    ensures ParseDecCoins(s) == Some(cs) <==>
              if TrimSpace(s) == [] then cs == [] else exists parts, ds :: SpellsSet(TrimSpace(s), cs, parts, ds)
  {
    hide ParseEach, Split, SortByDenom, IsValid, SpellsSet, TrimSpace;
    var t := TrimSpace(s);
    if t != [] {
      if ParseDecCoins(s) == Some(cs) {
        SetSpelled(t, cs, ParseEach(Split(t, ',')).value);
      }
      if parts, ds :| SpellsSet(t, cs, parts, ds) {
        SetAccepted(t, cs, parts, ds);
      }
    }
  }
}
