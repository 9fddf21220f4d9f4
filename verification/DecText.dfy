/**
 Printing and parsing a Dec (types/dec.go, `String` and `NewDecFromStr`).
 */
module DecText {
  import opened Arith
  import opened Decimals
  import opened Text

  /** What a printed Dec is: sign, whole part, point, exactly 18 fractional digits. */
  function Format(d: int): string {
    var n := Abs(d);
    (if d < 0 then "-" else "") + Numeral(n / ONE) + "." + FixedDigits(n % ONE, PRECISION)
  }

  /** The digits of a value below one, behind "0." and padding zeros. */
  method PurelyDecimal(digits: string, k: nat) returns (s: string)
    requires |digits| <= k
    ensures s == "0." + (Zeros(k - |digits|) + digits)
  {
    var pad := k - |digits|;
    var buf := new char[k + 2](_ => ' ');
    buf[0], buf[1] := '0', '.';
    for i := 0 to pad
      invariant buf[0] == '0' && buf[1] == '.'
      invariant forall j :: 2 <= j < i + 2 ==> buf[j] == '0'
    {
      buf[i + 2] := '0';
    }
    ghost var before := buf[..2 + pad];
    assert before == "0." + Zeros(pad);
    CopyInto(buf, 2 + pad, digits);
    s := buf[..];
    assert s == buf[..2 + pad] + buf[2 + pad..2 + pad + |digits|] == before + digits;
  }

  /** The digits with a point inserted k places from the end. */
  method InsertPoint(digits: string, k: nat) returns (s: string)
    requires k < |digits|
    ensures s == digits[..|digits| - k] + "." + digits[|digits| - k..]
  {
    var point := |digits| - k;
    var buf := new char[|digits| + 1](_ => ' ');
    CopyInto(buf, 0, digits[..point]);
    buf[point] := '.';
    assert buf[..point + 1] == digits[..point] + ".";
    CopyInto(buf, point + 1, digits[point..]);
    assert buf[..] == buf[..point + 1] + buf[point + 1..point + 1 + k];
    s := buf[..];
  }

  /** `String` works on the digits of the raw integer: it pads them, or inserts the point 18 places from the end. */
  method String(d: int) returns (s: string)
    ensures s == Format(d)
  {
    var isNeg, n := d < 0, Abs(d);
    var digits := Numeral(n);
    if |digits| <= PRECISION {
      s := PurelyDecimal(digits, PRECISION);
      ShortNumeral(n);
    } else {
      s := InsertPoint(digits, PRECISION);
      LongNumeral(n);
    }
    assert s == Format(n);
    if isNeg {
      s := "-" + s;
    }
  }

  /** Go's copy(buf[at:], src) for a source that fits. */
  method CopyInto(buf: array<char>, at: nat, src: string)
    requires at + |src| <= buf.Length
    modifies buf
    ensures buf[at..at + |src|] == src
    ensures buf[..at] == old(buf[..at]) && buf[at + |src|..] == old(buf[at + |src|..])
  {
    for i := 0 to |src|
      invariant forall k :: 0 <= k < i ==> buf[at + k] == src[k]
      invariant forall k :: 0 <= k < at ==> buf[k] == old(buf[k])
      invariant forall k :: at + |src| <= k < buf.Length ==> buf[k] == old(buf[k])
    {
      buf[at + i] := src[i];
    }
  }

  lemma ShortNumeral(n: nat)
    requires |Numeral(n)| <= PRECISION
    ensures "0." + (Zeros(PRECISION - |Numeral(n)|) + Numeral(n)) == Format(n)
  {
    hide Pow, FixedDigits, Numeral, Format;
    OneIsPowerOfTen();
    NumeralLength(n, PRECISION);
    NumeralPads(n, PRECISION);
    FormatBelowOne(n);
  }

  lemma FormatBelowOne(n: nat)
    requires n < ONE
    ensures Format(n) == "0." + FixedDigits(n, PRECISION)
  {
    hide Numeral, FixedDigits;
    BelowOne(n);
    LeadingZero(FixedDigits(n, PRECISION));
  }

  lemma BelowOne(n: nat)
    requires n < ONE
    ensures Abs(n) / ONE == 0 && Abs(n) % ONE == n
  {
  }

  lemma LeadingZero(f: string)
    ensures "" + Numeral(0) + "." + f == "0." + f
  {
    assert Numeral(0) == "0";
  }

  lemma LongNumeral(n: nat)
    requires |Numeral(n)| > PRECISION
    ensures var s := Numeral(n);
            s[..|s| - PRECISION] + "." + s[|s| - PRECISION..] == Format(n)
  {
    hide Numeral, FixedDigits, Pow;
    OneIsPowerOfTen();
    NumeralLength(n, PRECISION);
    NumeralSplits(n, PRECISION);
    CutAt(Numeral(n / ONE), FixedDigits(n % ONE, PRECISION));
  }

  lemma CutAt(w: string, f: string)
    ensures (w + f)[..|w + f| - |f|] == w && (w + f)[|w + f| - |f|..] == f
  {
  }

  // ----------------------------------------------------------------- parsing

  /** big.Int.SetString(s, 10): an optional sign and at least one digit. */
  function SetDecimal(s: string): Option<int> {
    if s == [] then None
    else if s[0] == '-' || s[0] == '+' then
      if |s| > 1 && AllDigits(s[1..]) then
        var v: int := NumeralValue(s[1..]);
        Some(if s[0] == '-' then -v else v)
      else None
    else if AllDigits(s) then Some(NumeralValue(s)) else None
  }

  function ParseUnsigned(s: string): Option<int> {
    var parts := Split(s, '.');
    var whole := parts[0];
    if |parts| > 2 then None
    else if |parts| == 2 && (parts[1] == [] || whole == []) then None
    else
      var decimals := if |parts| == 2 then parts[1] else [];
      if |decimals| > PRECISION then None
      else SetDecimal(whole + decimals + Zeros(PRECISION - |decimals|))
  }

  function Parse(s: string): Option<int> {
    if s == [] then None
    else
      var neg := s[0] == '-';
      var rest := if neg then s[1..] else s;
      if rest == [] then None
      else
        var combined :- ParseUnsigned(rest);
        Some(if neg then -combined else combined)
  }

  lemma NoPoint(s: string)
    requires AllDigits(s)
    ensures '.' !in s && (s != [] ==> s[0] != '-' && s[0] != '+')
  {
  }

  /** Digits, a point and up to 18 more digits read as the value they spell. */
  lemma ParsePlain(whole: string, decimals: string)
    requires AllDigits(whole) && AllDigits(decimals)
    requires |whole| > 0 && 0 < |decimals| <= PRECISION
    ensures ParseUnsigned(whole + "." + decimals)
         == Some(NumeralValue(whole) * ONE + NumeralValue(decimals) * Pow(10, PRECISION - |decimals|))
  {
    hide ParseUnsigned, NumeralValue, Pow;
    ParsePlainDigits(whole, decimals);
    SpelledValue(whole, decimals, PRECISION - |decimals|);
    OneIsPowerOfTen();
  }

  lemma ParsePlainDigits(whole: string, decimals: string)
    requires AllDigits(whole) && AllDigits(decimals)
    requires |whole| > 0 && 0 < |decimals| <= PRECISION
    ensures ParseUnsigned(whole + "." + decimals)
         == Some(NumeralValue(whole + decimals + Zeros(PRECISION - |decimals|)))
  {
    hide Split, NumeralValue;
    SplitAtPoint(whole, decimals);
    var c := whole + decimals + Zeros(PRECISION - |decimals|);
    assert AllDigits(c) && c[0] == whole[0];
  }

  lemma SplitAtPoint(whole: string, decimals: string)
    requires AllDigits(whole) && AllDigits(decimals)
    ensures Split(whole + "." + decimals, '.') == [whole, decimals]
  {
    NoPoint(whole);
    NoPoint(decimals);
    assert whole + "." + decimals == whole + ['.'] + decimals;
    SplitAtSeparator(whole, '.', decimals);
    SplitWithout(decimals, '.');
  }

  lemma SpelledValue(whole: string, decimals: string, k: nat)
    ensures NumeralValue(whole + decimals + Zeros(k))
         == NumeralValue(whole) * Pow(10, |decimals| + k) + NumeralValue(decimals) * Pow(10, k)
  {
    NumeralValueConcat(whole + decimals, Zeros(k));
    NumeralValueConcat(whole, decimals);
    ZerosValue(k);
    PowAdds(10, |decimals|, k);
    Distribute(NumeralValue(whole), Pow(10, |decimals|), NumeralValue(decimals), Pow(10, k));
  }

  lemma Distribute(a: int, p: int, b: int, q: int)
    ensures (a * p + b) * q == a * (p * q) + b * q
  {
  }

  lemma ParseParts(q: nat, r: nat)
    requires r < ONE
    ensures var s := Numeral(q) + "." + FixedDigits(r, PRECISION);
            ParseUnsigned(s) == Some(q * ONE + r) && IsDigit(s[0])
  {
    assert Pow(10, 0) == 1;
    hide ParseUnsigned, Numeral, NumeralValue, FixedDigits, Pow;
    OneIsPowerOfTen();
    NumeralRoundTrip(q);
    FixedDigitsRoundTrip(r, PRECISION);
    ParsePlain(Numeral(q), FixedDigits(r, PRECISION));
  }

  lemma ParseFormatUnsigned(n: nat)
    ensures ParseUnsigned(Format(n)) == Some(n)
    ensures |Format(n)| > 0 && IsDigit(Format(n)[0])
  {
    hide ParseUnsigned, Numeral, FixedDigits;
    ParseParts(n / ONE, n % ONE);
    assert Format(n) == Numeral(n / ONE) + "." + FixedDigits(n % ONE, PRECISION);
  }

  function Whole(n: nat): string { Numeral(n / ONE) }

  function Fraction(n: nat): string { FixedDigits(n % ONE, PRECISION) }

  lemma FormatParts(n: nat)
    ensures Format(n) == Whole(n) + "." + Fraction(n)
    ensures AllDigits(Whole(n)) && AllDigits(Fraction(n)) && |Fraction(n)| == PRECISION
  {
    hide Numeral, NumeralValue, FixedDigits, Pow;
    OneIsPowerOfTen();
    NumeralRoundTrip(n / ONE);
    FixedDigitsRoundTrip(n % ONE, PRECISION);
  }

  lemma FormatNegative(d: int)
    requires d < 0
    ensures |Format(d)| > 0 && Format(d)[0] == '-' && Format(d)[1..] == Format(-d)
  {
    hide Numeral, FixedDigits;
  }

  /** Parsing a printed Dec gives it back, for every Dec of either sign. */
  lemma ParseFormat(d: int)
    ensures Parse(Format(d)) == Some(d)
  {
    hide ParseUnsigned, Format;
    ParseFormatUnsigned(Abs(d));
    if d < 0 {
      FormatNegative(d);
    }
  }

  // ------------------------------------------------------ what is printed

  /** The canonical text: a minus for a negative value only, a numeral, a point and exactly 18 digits. */
  predicate Printed(t: string, neg: bool, w: string, f: string) {
    && IsNumeral(w) && AllDigits(f) && |f| == 18
    && t == (if neg then "-" else "") + w + "." + f
  }

  lemma UnsignedPrinted(w: string, f: string)
    requires IsNumeral(w) && AllDigits(f) && |f| == 18
    ensures NumeralValue(f) < ONE && w + "." + f == Format(NumeralValue(w) * ONE + NumeralValue(f))
  {
    hide Numeral, NumeralValue, FixedDigits, Pow;
    OneIsPowerOfTen();
    NumeralUnique(w);
    FixedDigitsUnique(f);
    DivModUnique(NumeralValue(w) * ONE + NumeralValue(f), ONE, NumeralValue(w), NumeralValue(f));
  }

  function Sign(d: int): string { if d < 0 then "-" else "" }

  lemma FormatIsSigned(d: int)
    ensures Format(d) == Sign(d) + Format(Abs(d))
  {
    hide Numeral, FixedDigits;
  }

  lemma FormatIsPrinted(d: int) returns (w: string, f: string)
    ensures Printed(Format(d), d < 0, w, f) && Abs(d) == NumeralValue(w) * ONE + NumeralValue(f)
  {
    hide Numeral, NumeralValue, FixedDigits, Pow, Format;
    var n := Abs(d);
    FormatIsSigned(d);
    FormatParts(n);
    w, f := Whole(n), Fraction(n);
    NumeralStarts(n / ONE);
    NumeralRoundTrip(n / ONE);
    OneIsPowerOfTen();
    FixedDigitsRoundTrip(n % ONE, PRECISION);
    Regrouped(Sign(d), w, f);
  }

  lemma Regrouped(sign: string, w: string, f: string)
    ensures sign + (w + "." + f) == sign + w + "." + f
  {
  }

  /** Which text a Dec prints as: the one canonical text that spells it. There is no other, no padding and no plus. */
  lemma FormatIff(d: int, t: string)
    ensures t == Format(d) <==>
              exists w, f :: Printed(t, d < 0, w, f) && Abs(d) == NumeralValue(w) * ONE + NumeralValue(f)
  {
    hide NumeralValue, Format;
    var _, _ := FormatIsPrinted(d);
    if w, f :| Printed(t, d < 0, w, f) && Abs(d) == NumeralValue(w) * ONE + NumeralValue(f) {
      UnsignedPrinted(w, f);
      FormatIsSigned(d);
      Regrouped(Sign(d), w, f);
    }
  }

  // ------------------------------------------------------- what is accepted

  predicate IsSign(c: char) { c == '-' || c == '+' }

  function Unsigned(w: string): string { if w != [] && IsSign(w[0]) then w[1..] else w }

  /** Digits, possibly behind a sign, and then possibly none. */
  predicate SignedDigits(w: string) { w != [] && AllDigits(Unsigned(w)) }

  /** Signed digits w and, behind a point, up to 18 digits f. */
  predicate Spells(t: string, w: string, f: string) {
    && SignedDigits(w) && AllDigits(f) && |f| <= PRECISION
    && t == if f == [] then w else w + "." + f
  }

  function Spelled(w: string, f: string): int
    requires |f| <= PRECISION
  {
    var m := NumeralValue(Unsigned(w)) * ONE + NumeralValue(f) * Pow(10, PRECISION - |f|);
    if w != [] && w[0] == '-' then -m else m
  }

  lemma SplitSpelled(t: string, w: string, f: string)
    requires Spells(t, w, f)
    ensures Split(t, '.') == if f == [] then [w] else [w, f]
  {
    assert '.' !in w by {
      NoPoint(Unsigned(w));
      assert w == Unsigned(w) || w == [w[0]] + Unsigned(w);
    }
    NoPoint(f);
    if f == [] {
      SplitWithout(w, '.');
    } else {
      assert w + "." + f == w + ['.'] + f;
      SplitAtSeparator(w, '.', f);
      SplitWithout(f, '.');
    }
  }

  /** The digits that are handed on: accepted exactly when the part before the point is signed digits. */
  lemma SetDecimalIff(w: string, f: string)
    requires w != [] && |f| <= PRECISION
    ensures var c := w + f + Zeros(PRECISION - |f|);
            SetDecimal(c) == if SignedDigits(w) && AllDigits(f) then Some(Spelled(w, f)) else None
  {
    hide NumeralValue, Pow;
    var k := PRECISION - |f|;
    var c, u := w + f + Zeros(k), Unsigned(w);
    OneIsPowerOfTen();
    SpelledValue(u, f, k);
    assert c[0] == w[0];
    if IsSign(w[0]) {
      assert c[1..] == u + f + Zeros(k);
      DigitsOfParts(u, f, k);
      assert |c| > 1;
    } else {
      DigitsOfParts(w, f, k);
    }
  }

  lemma DigitsOfParts(u: string, f: string, k: nat)
    ensures AllDigits(u + f + Zeros(k)) <==> AllDigits(u) && AllDigits(f)
  {
    var c := u + f + Zeros(k);
    if AllDigits(c) {
      forall i | 0 <= i < |u| ensures IsDigit(u[i]) { assert c[i] == u[i]; }
      forall i | 0 <= i < |f| ensures IsDigit(f[i]) { assert c[|u| + i] == f[i]; }
    }
  }

  lemma ParseUnsignedIff(t: string, v: int)
    requires t != []
    ensures ParseUnsigned(t) == Some(v) <==> exists w, f :: Spells(t, w, f) && v == Spelled(w, f)
  {
    hide Split, SetDecimal, Spelled, SignedDigits;
    var parts := Split(t, '.');
    SplitInTwo(t, '.');
    if |parts| == 1 {
      SetDecimalIff(parts[0], []);
      assert Spells(t, parts[0], []) <==> SignedDigits(parts[0]);
    } else if |parts| == 2 && parts[0] != [] && 0 < |parts[1]| <= PRECISION {
      SetDecimalIff(parts[0], parts[1]);
      assert parts[0] + ['.'] + parts[1] == parts[0] + "." + parts[1];
      assert Spells(t, parts[0], parts[1]) <==> SignedDigits(parts[0]) && AllDigits(parts[1]);
    }
    forall w, f | Spells(t, w, f) ensures parts == if f == [] then [w] else [w, f] {
      SplitSpelled(t, w, f);
    }
    forall w, f | Spells(t, w, f) ensures w != [] {
      SignedNotEmpty(w);
    }
  }

  lemma SignedNotEmpty(w: string)
    requires SignedDigits(w)
    ensures w != []
  {
  }

  /** The text without its leading minus. */
  function AfterMinus(s: string): string { if s != [] && s[0] == '-' then s[1..] else s }

  /**
   What the parser accepts, and as what: an optional minus, then an optional sign, then digits, of which
   there may be none after a sign, then optionally a point and 1 to 18 digits.
   */
  lemma ParseAcceptsIff(s: string, v: int)
    ensures Parse(s) == Some(v) <==>
              exists w, f :: Spells(AfterMinus(s), w, f) && v == if s[0] == '-' then -Spelled(w, f) else Spelled(w, f)
  {
    hide ParseUnsigned, Spelled;
    var t := AfterMinus(s);
    forall w, f | Spells(t, w, f) ensures t != [] { }
    if t != [] {
      ParseUnsignedIff(t, if s[0] == '-' then -v else v);
    }
  }

  /** The documented form: (-) digits (. digits). */
  ghost predicate Documented(s: string) {
    exists w, f :: Spells(AfterMinus(s), w, f) && AllDigits(w)
  }

  /**
   "The parser accepts only the documented form" is false of the code. An accepted text has the
   documented form exactly when no sign follows its optional leading minus.
   */
  lemma DocumentedIff(s: string)
    ensures Documented(s) <==> Parse(s).Some? && AfterMinus(s) != [] && !IsSign(AfterMinus(s)[0])
  {
    hide Parse, Spelled, NumeralValue;
    var t := AfterMinus(s);
    if Documented(s) {
      var w, f :| Spells(t, w, f) && AllDigits(w);
      ParseAcceptsIff(s, if s[0] == '-' then -Spelled(w, f) else Spelled(w, f));
      assert t[0] == w[0] && IsDigit(w[0]);
    }
    if Parse(s).Some? && t != [] && !IsSign(t[0]) {
      ParseAcceptsIff(s, Parse(s).value);
      var w, f :| Spells(t, w, f);
      assert t[0] == w[0];
    }
  }

  /** Texts outside the documented form that are accepted: a doubled minus, a lone sign, a sign before the point. */
  lemma UndocumentedAccepted(n: nat)
    ensures Parse("--" + Numeral(n)) == Some(n * ONE)
    ensures Parse("+") == Some(0) && Parse("--") == Some(0) && Parse("+.5") == Some(HALF)
  {
    hide Numeral, Pow, NumeralValue, Parse;
    NumeralRoundTrip(n);
    assert AfterMinus("--" + Numeral(n)) == "-" + Numeral(n);
    Accepted("--" + Numeral(n), "-" + Numeral(n), "");
    Accepted("+", "+", "");
    Accepted("--", "-", "");
    Accepted("+.5", "+", "5");
    SmallValues();
    assert ("-" + Numeral(n))[1..] == Numeral(n);
  }

  lemma SmallValues()
    ensures NumeralValue("") == 0 && NumeralValue("5") == 5 && 5 * Pow(10, PRECISION - 1) == HALF
  {
    assert "5"[..0] == "";
    PowAdds(10, 1, 17);
    OneIsPowerOfTen();
    assert Pow(10, 1) == 10;
  }

  lemma Accepted(s: string, w: string, f: string)
    requires Spells(AfterMinus(s), w, f)
    ensures Parse(s) == Some(if s[0] == '-' then -Spelled(w, f) else Spelled(w, f))
  {
    hide Parse, Spelled;
    ParseAcceptsIff(s, if s[0] == '-' then -Spelled(w, f) else Spelled(w, f));
  }
}
