/**
 The string operations the SDK takes from Go's library: trimming, splitting, decimal
 numerals, byte-wise comparison, and the denom pattern of types/coin.go.
 */
module Text {
  import opened Arith

  predicate IsDigit(c: char) { '0' <= c <= '9' }

  predicate IsLetter(c: char) { 'a' <= c <= 'z' || 'A' <= c <= 'Z' }

  predicate IsUpper(c: char) { 'A' <= c <= 'Z' }

  /** [[:space:]] */
  predicate IsSpace(c: char) { c == ' ' || 9 <= c as int <= 13 }

  /** The Latin-1 characters that strings.TrimSpace removes. */
  predicate IsTrimmed(c: char) { IsSpace(c) || c as int == 0x85 || c as int == 0xa0 }

  predicate AllDigits(s: string) { forall i :: 0 <= i < |s| ==> IsDigit(s[i]) }

  // ------------------------------------------------------------ comparison

  /** strings.Compare(a, b) < 0: lexicographic order. */
  predicate Less(a: string, b: string) {
    b != [] && (a == [] || a[0] < b[0] || (a[0] == b[0] && Less(a[1..], b[1..])))
  }

  lemma {:induction false} LessTotal(a: string, b: string)
    ensures a == b || Less(a, b) || Less(b, a)
  {
    if a != [] && b != [] && a[0] == b[0] {
      LessTotal(a[1..], b[1..]);
      assert a == [a[0]] + a[1..] && b == [b[0]] + b[1..];
    }
  }

  lemma {:induction false} LessTransitive(a: string, b: string, c: string)
    requires Less(a, b) && Less(b, c)
    ensures Less(a, c)
  {
    if a != [] && a[0] == b[0] == c[0] {
      LessTransitive(a[1..], b[1..], c[1..]);
    }
  }

  lemma {:induction false} LessIrreflexive(a: string)
    ensures !Less(a, a)
  {
    if a != [] {
      LessIrreflexive(a[1..]);
    }
  }

  // -------------------------------------------------------- trim and split

  function TrimLeft(s: string): string {
    if s != [] && IsTrimmed(s[0]) then TrimLeft(s[1..]) else s
  }

  function TrimSpace(s: string): string
    decreases |s|
  {
    if s != [] && IsTrimmed(s[|s| - 1]) then TrimSpace(s[..|s| - 1]) else TrimLeft(s)
  }

  function Split(s: string, sep: char): (parts: seq<string>)
    ensures |parts| > 0
    decreases |s|
  {
    if s == [] then [[]]
    else if s[0] == sep then [[]] + Split(s[1..], sep)
    else var rest := Split(s[1..], sep); [[s[0]] + rest[0]] + rest[1..]
  }

  lemma {:induction false} SplitAtSeparator(a: string, sep: char, b: string)
    requires sep !in a
    ensures Split(a + [sep] + b, sep) == [a] + Split(b, sep)
    decreases |a|
  {
    var s := a + [sep] + b;
    if a == [] {
      assert s[1..] == b;
    } else {
      assert s[1..] == a[1..] + [sep] + b;
      SplitAtSeparator(a[1..], sep, b);
      assert a == [a[0]] + a[1..];
    }
  }

  /** One piece is the whole text, and two pieces are what the one separator keeps apart. */
  lemma {:induction false} SplitInTwo(s: string, sep: char)
    ensures |Split(s, sep)| == 1 ==> Split(s, sep)[0] == s
    ensures |Split(s, sep)| == 2 ==> s == Split(s, sep)[0] + [sep] + Split(s, sep)[1]
  {
    if s != [] {
      SplitInTwo(s[1..], sep);
      assert s == [s[0]] + s[1..];
    }
  }

  lemma {:induction false} SplitWithout(a: string, sep: char)
    requires sep !in a
    ensures Split(a, sep) == [a]
  {
    if a != [] {
      SplitWithout(a[1..], sep);
      assert a == [a[0]] + a[1..];
    }
  }

  /** The pieces with the separator between them. */
  function JoinWith(parts: seq<string>, sep: char): string {
    if parts == [] then [] else if |parts| == 1 then parts[0] else parts[0] + [sep] + JoinWith(parts[1..], sep)
  }

  ghost predicate NoneHolds(parts: seq<string>, sep: char) {
    forall i :: 0 <= i < |parts| ==> sep !in parts[i]
  }

  lemma {:induction false} JoinOfSplit(s: string, sep: char)
    ensures JoinWith(Split(s, sep), sep) == s && NoneHolds(Split(s, sep), sep)
  {
    if s != [] {
      var rest := Split(s[1..], sep);
      JoinOfSplit(s[1..], sep);
      assert s == [s[0]] + s[1..];
      if s[0] == sep {
        assert ([[]] + rest)[1..] == rest;
      } else {
        var parts := [[s[0]] + rest[0]] + rest[1..];
        assert parts[1..] == rest[1..];
        assert forall i :: 1 <= i < |parts| ==> parts[i] == rest[i];
      }
    }
  }

  lemma {:induction false} SplitOfJoin(parts: seq<string>, sep: char)
    requires parts != [] && NoneHolds(parts, sep)
    ensures Split(JoinWith(parts, sep), sep) == parts
  {
    hide Split;
    if |parts| == 1 {
      SplitWithout(parts[0], sep);
    } else {
      SplitOfJoin(parts[1..], sep);
      SplitAtSeparator(parts[0], sep, JoinWith(parts[1..], sep));
    }
  }

  /** Splitting is the inverse of joining: the pieces are the one list without the separator that joins to the text. */
  lemma SplitIff(s: string, sep: char, parts: seq<string>)
    ensures Split(s, sep) == parts <==> parts != [] && NoneHolds(parts, sep) && JoinWith(parts, sep) == s
  {
    hide Split, JoinWith;
    JoinOfSplit(s, sep);
    if parts != [] && NoneHolds(parts, sep) && JoinWith(parts, sep) == s {
      SplitOfJoin(parts, sep);
    }
  }

  predicate AllTrimmed(s: string) { forall i :: 0 <= i < |s| ==> IsTrimmed(s[i]) }

  /** Neither end of the text is white space. */
  predicate Tight(t: string) { t == [] || (!IsTrimmed(t[0]) && !IsTrimmed(t[|t| - 1])) }

  lemma {:induction false} TrimLeftMeans(s: string) returns (a: string)
    ensures s == a + TrimLeft(s) && AllTrimmed(a)
    ensures TrimLeft(s) != [] ==> !IsTrimmed(TrimLeft(s)[0])
  {
    a := [];
    if s != [] && IsTrimmed(s[0]) {
      var b := TrimLeftMeans(s[1..]);
      a := [s[0]] + b;
      assert s == [s[0]] + s[1..];
    }
  }

  /** Trimming cuts white space off both ends and stops at the first character of each that is none. */
  lemma {:induction false} TrimMeans(s: string) returns (a: string, b: string)
    ensures s == a + TrimSpace(s) + b && AllTrimmed(a) && AllTrimmed(b) && Tight(TrimSpace(s))
    decreases |s|
  {
    hide TrimLeft, IsTrimmed;
    if s != [] && IsTrimmed(s[|s| - 1]) {
      var front, last := s[..|s| - 1], s[|s| - 1];
      var x, y := TrimMeans(front);
      a, b := x, y + [last];
      assert s == front + [last];
    } else {
      a := TrimLeftMeans(s);
      b := [];
      var t := TrimLeft(s);
      assert t != [] ==> t[|t| - 1] == s[|s| - 1];
    }
  }

  // -------------------------------------------------------------- numerals

  function DigitChar(n: nat): char
    requires n < 10
  {
    '0' + n as char
  }

  function DigitValue(c: char): nat {
    if IsDigit(c) then (c - '0') as nat else 0
  }

  /** The decimal numeral of n, without leading zeros. */
  function Numeral(n: nat): string {
    if n < 10 then [DigitChar(n)] else Numeral(n / 10) + [DigitChar(n % 10)]
  }

  /** The last k decimal digits of n, padded with zeros. */
  function FixedDigits(n: nat, k: nat): (s: string)
    ensures |s| == k
  {
    if k == 0 then [] else FixedDigits(n / 10, k - 1) + [DigitChar(n % 10)]
  }

  function NumeralValue(s: string): nat {
    if s == [] then 0 else NumeralValue(s[..|s| - 1]) * 10 + DigitValue(s[|s| - 1])
  }

  lemma DigitRoundTrip(n: nat)
    requires n < 10
    ensures IsDigit(DigitChar(n)) && DigitValue(DigitChar(n)) == n
  {
  }

  lemma {:induction false} NumeralRoundTrip(n: nat)
    ensures AllDigits(Numeral(n)) && NumeralValue(Numeral(n)) == n && |Numeral(n)| > 0
  {
    DigitRoundTrip(n % 10);
    if n < 10 {
      assert NumeralValue([DigitChar(n)]) == NumeralValue([]) * 10 + n;
    } else {
      NumeralRoundTrip(n / 10);
      assert Numeral(n)[..|Numeral(n)| - 1] == Numeral(n / 10);
    }
  }

  lemma {:induction false} FixedDigitsRoundTrip(n: nat, k: nat)
    requires n < Pow(10, k)
    ensures AllDigits(FixedDigits(n, k)) && NumeralValue(FixedDigits(n, k)) == n
    decreases k
  {
    if k > 0 {
      DigitRoundTrip(n % 10);
      FixedDigitsRoundTrip(n / 10, k - 1);
      assert FixedDigits(n, k)[..k - 1] == FixedDigits(n / 10, k - 1);
    }
  }

  lemma {:induction false} NumeralValueConcat(a: string, b: string)
    ensures NumeralValue(a + b) == NumeralValue(a) * Pow(10, |b|) + NumeralValue(b)
    decreases |b|
  {
    if b == [] {
      assert a + b == a;
    } else {
      var c := b[..|b| - 1];
      assert (a + b)[..|a + b| - 1] == a + c;
      NumeralValueConcat(a, c);
      AppendDigit(NumeralValue(a), Pow(10, |c|), NumeralValue(c), DigitValue(b[|b| - 1]));
    }
  }

  lemma AppendDigit(a: int, p: int, c: int, v: int)
    ensures (a * p + c) * 10 + v == a * (10 * p) + (c * 10 + v)
  {
  }

  lemma DigitBack(c: char)
    requires IsDigit(c)
    ensures DigitValue(c) < 10 && DigitChar(DigitValue(c)) == c
  {
  }

  /** Digits without a needless leading zero. */
  predicate IsNumeral(w: string) { w != [] && AllDigits(w) && (|w| > 1 ==> w[0] != '0') }

  lemma {:induction false} NumeralStarts(n: nat)
    ensures IsNumeral(Numeral(n)) && (n > 0 ==> Numeral(n)[0] != '0')
  {
    if n >= 10 {
      NumeralStarts(n / 10);
      assert Numeral(n)[0] == Numeral(n / 10)[0];
    }
    NumeralRoundTrip(n);
  }

  lemma {:induction false} LeadingDigit(w: string)
    requires AllDigits(w) && w != [] && w[0] != '0'
    ensures NumeralValue(w) > 0
  {
    DigitBack(w[0]);
    if |w| > 1 {
      LeadingDigit(w[..|w| - 1]);
    }
  }

  /** A number has one numeral. */
  lemma {:induction false} NumeralUnique(w: string)
    requires IsNumeral(w)
    ensures Numeral(NumeralValue(w)) == w
  {
    var front, last := w[..|w| - 1], w[|w| - 1];
    DigitBack(last);
    assert w == front + [last];
    if front != [] {
      LeadingDigit(front);
      NumeralUnique(front);
      AppendedDigit(NumeralValue(front), DigitValue(last));
    }
  }

  lemma AppendedDigit(n: nat, v: nat)
    requires v < 10
    ensures (n * 10 + v) / 10 == n && (n * 10 + v) % 10 == v && (n > 0 ==> n * 10 + v >= 10)
  {
  }

  lemma {:induction false} FixedDigitsUnique(f: string)
    requires AllDigits(f)
    ensures FixedDigits(NumeralValue(f), |f|) == f && NumeralValue(f) < Pow(10, |f|)
  {
    if f != [] {
      var front, last := f[..|f| - 1], f[|f| - 1];
      DigitBack(last);
      assert f == front + [last];
      FixedDigitsUnique(front);
      AppendedDigit(NumeralValue(front), DigitValue(last));
    }
  }

  /** A numeral of at least 10^k is the numeral of its high part followed by its k low digits. */
  lemma {:induction false} NumeralSplits(n: nat, k: nat)
    requires n >= Pow(10, k)
    ensures Pow(10, k) > 0
    ensures Numeral(n) == Numeral(n / Pow(10, k)) + FixedDigits(n % Pow(10, k), k)
    decreases k
  {
    PowPositive(10, k);
    if k > 0 {
      var p := Pow(10, k - 1);
      PowPositive(10, k - 1);
      NumeralSplits(n / 10, k - 1);
      DivModTen(n, p);
    }
  }

  lemma DivModTen(n: nat, p: int)
    requires p > 0
    ensures n / 10 / p == n / (10 * p)
    ensures n % (10 * p) / 10 == n / 10 % p
    ensures n % (10 * p) % 10 == n % 10
  {
    var a, r := n / 10, n % 10;
    var q, t := a / p, a % p;
    assert a == q * p + t;
    assert n == q * (10 * p) + (10 * t + r);
    assert 0 <= 10 * t + r < 10 * p;
    DivModUnique(n, 10 * p, q, 10 * t + r);
  }

  lemma DivModUnique(n: int, d: int, q: int, r: int)
    requires d > 0 && n == q * d + r && 0 <= r < d
    ensures n / d == q && n % d == r
  {
    FloorLeast(n, d, q);
    FloorLeast(n, d, q + 1);
    assert (q + 1) * d == q * d + d;
    assert n == n / d * d + n % d;
  }

  function Zeros(k: nat): (s: string)
    ensures |s| == k && forall i :: 0 <= i < k ==> s[i] == '0'
  {
    seq(k, _ => '0')
  }

  lemma {:induction false} ZerosValue(k: nat)
    ensures NumeralValue(Zeros(k)) == 0
  {
    if k > 0 {
      ZerosValue(k - 1);
      assert Zeros(k)[..k - 1] == Zeros(k - 1);
    }
  }

  /** A numeral below 10^k, padded with zeros on the left, is its k fixed digits. */
  lemma {:induction false} NumeralPads(n: nat, k: nat)
    requires 0 < k && n < Pow(10, k)
    ensures |Numeral(n)| <= k
    ensures FixedDigits(n, k) == Zeros(k - |Numeral(n)|) + Numeral(n)
    decreases k
  {
    if n < 10 {
      FixedZeros(k - 1);
      assert FixedDigits(n, k) == FixedDigits(0, k - 1) + [DigitChar(n)];
    } else {
      NumeralPads(n / 10, k - 1);
      assert k - |Numeral(n)| == k - 1 - |Numeral(n / 10)|;
    }
  }

  lemma NumeralLength(n: nat, k: nat)
    requires k > 0
    ensures |Numeral(n)| <= k <==> n < Pow(10, k)
  {
    if n < Pow(10, k) {
      NumeralPads(n, k);
    } else {
      NumeralSplits(n, k);
      NumeralRoundTrip(n / Pow(10, k));
    }
  }

  lemma {:induction false} FixedZeros(k: nat)
    ensures FixedDigits(0, k) == Zeros(k)
  {
    if k > 0 {
      FixedZeros(k - 1);
    }
  }

  // ----------------------------------------------------------------- denoms

  predicate IsDenomChar(c: char) { IsLetter(c) || IsDigit(c) || c == '/' || c == ':' || c == '-' }

  /** ^[a-zA-Z][a-zA-Z0-9/:-]{2,127}$ */
  predicate ValidDenom(s: string) {
    && 3 <= |s| <= 128
    && IsLetter(s[0])
    && forall i :: 0 <= i < |s| ==> IsDenomChar(s[i])
  }

  /** strings.ToLower(s) == s, for the ASCII letters a denom pattern can hold. */
  predicate IsLower(s: string) {
    forall i :: 0 <= i < |s| ==> !IsUpper(s[i])
  }

  lemma TrimKeeps(s: string)
    requires s != [] && !IsTrimmed(s[0]) && !IsTrimmed(s[|s| - 1])
    ensures TrimSpace(s) == s
  {
  }

  lemma DenomIsTrimmed(s: string)
    requires ValidDenom(s)
    ensures TrimSpace(s) == s
  {
    assert IsDenomChar(s[0]) && IsDenomChar(s[|s| - 1]);
    TrimKeeps(s);
  }
}
