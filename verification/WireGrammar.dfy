/**
 What a field of a message is on the wire (Protocol Buffers Encoding, "Message Structure"), apart from
 any decoder: a tag with a payload, or a group of nested fields between two tags. The skipping loop of
 crypto/types/multisig.pb.go is proved to move over exactly one such field.
 */
module WireGrammar {
  import opened Arith
  import opened Varint
  import opened Wire

  // ----------------------------------------------------------------- varints

  /** One to ten bytes, all but the last with their top bit set. */
  predicate IsVarint(s: seq<Byte>) {
    0 < |s| <= 10 && s[|s| - 1] < 128 && forall i :: 0 <= i < |s| - 1 ==> s[i] >= 128
  }

  /** The seven-bit groups of the bytes, least significant first. */
  function Groups(s: seq<Byte>): nat {
    if s == [] then 0 else s[0] % 128 + 128 * Groups(s[1..])
  }

  /** What a varint stands for in 64 bits. */
  function VarintValue(s: seq<Byte>): (v: nat)
    ensures v < U64
  {
    Groups(s) % U64
  }

  lemma ModAdd(x: nat, y: nat)
    ensures (x % U64 + y) % U64 == (x + y) % U64
  {
  }

  lemma NextGroup(acc: nat, b: nat, unit: nat, rest: nat)
    ensures b * unit >= 0 && 128 * unit * rest >= 0 && unit * (b + 128 * rest) >= 0
    ensures acc + b * unit + 128 * unit * rest == acc + unit * (b + 128 * rest)
  {
    assert unit * (b + 128 * rest) == b * unit + 128 * unit * rest;
  }

  lemma ReadStepAt(data: seq<Byte>, k: nat, unit: nat, acc: nat)
    requires k <= 10
    ensures k == 10 || data == [] ==> !ReadFrom(data, k, unit, acc).Value?
    ensures k < 10 && data != [] && data[0] < 128 ==>
              ReadFrom(data, k, unit, acc) == Value(Accumulate(acc, data[0], unit), k + 1)
    ensures k < 10 && data != [] && data[0] >= 128 ==>
              ReadFrom(data, k, unit, acc) == ReadFrom(data[1..], k + 1, 128 * unit, Accumulate(acc, data[0], unit))
  {
    hide Accumulate;
  }

  /** Reading, from the k-th byte of a varint on, stops exactly where a varint ends. */
  lemma {:induction false} ReadFromEnds(data: seq<Byte>, k: nat, unit: nat, acc: nat, n: nat)
    requires k <= 10
    ensures var r := ReadFrom(data, k, unit, acc);
            r.Value? && r.n == n <==> k < n <= 10 && n - k <= |data| && IsVarint(data[..n - k])
    decreases 10 - k
  {
    ReadStepAt(data, k, unit, acc);
    hide ReadFrom, Accumulate;
    if k < 10 && data != [] {
      if data[0] < 128 {
        SingleByte(data);
        if k + 1 < n <= 10 && n - k <= |data| { assert data[..n - k][0] == data[0]; }
      } else {
        ReadFromEnds(data[1..], k + 1, 128 * unit, Accumulate(acc, data[0], unit), n);
        if k < n && n - k <= |data| { VarintCons(data, n - k); }
      }
    }
  }

  lemma SingleByte(data: seq<Byte>)
    requires data != [] && data[0] < 128
    ensures IsVarint(data[..1])
  {
  }

  /** What has been read is what was there before plus the groups, in units. */
  lemma {:induction false} ReadFromAdds(data: seq<Byte>, k: nat, unit: nat, acc: nat)
    requires k <= 10
    ensures var r := ReadFrom(data, k, unit, acc);
            r.Value? ==> unit * Groups(data[..r.n - k]) >= 0 && r.v == (acc + unit * Groups(data[..r.n - k])) % U64
    decreases 10 - k
  {
    ReadStepAt(data, k, unit, acc);
    var r := ReadFrom(data, k, unit, acc);
    hide ReadFrom, Accumulate;
    if r.Value? {
      var b, t, m := data[0], data[1..], r.n - k;
      if b < 128 {
        OneByte(data, unit);
        AccumulateMeans(acc, b, unit);
      } else {
        var sum := Accumulate(acc, b, unit);
        ReadFromAdds(t, k + 1, 128 * unit, sum);
        AccumulateMeans(acc, b, unit);
        assert data[..m][0] == b && data[..m][1..] == t[..m - 1];
        NextGroup(acc, b % 128, unit, Groups(t[..m - 1]));
        ModAdd(acc + b % 128 * unit, 128 * unit * Groups(t[..m - 1]));
      }
    }
  }

  lemma AccumulateMeans(acc: nat, b: Byte, unit: nat)
    ensures b % 128 * unit >= 0 && Accumulate(acc, b, unit) == (acc + b % 128 * unit) % U64
  {
  }

  lemma OneByte(data: seq<Byte>, unit: nat)
    requires data != [] && data[0] < 128
    ensures IsVarint(data[..1]) && unit * Groups(data[..1]) == data[0] % 128 * unit
  {
    assert data[..1] == [data[0]] && data[..1][1..] == [];
  }

  /** Behind a byte with its top bit set a varint goes on. */
  lemma VarintCons(data: seq<Byte>, m: nat)
    requires 0 < m <= |data| && data[0] >= 128
    ensures IsVarint(data[..m]) <==> 1 < m <= 10 && IsVarint(data[1..][..m - 1])
  {
    var s, t := data[..m], data[1..][..m - 1];
    assert s == [data[0]] + t;
    if 1 < m <= 10 && IsVarint(t) {
      forall i | 0 <= i < |s| - 1 ensures s[i] >= 128 {
        if i > 0 { assert s[i] == t[i - 1]; }
      }
    }
    if IsVarint(s) && m > 1 {
      forall i | 0 <= i < |t| - 1 ensures t[i] >= 128 { assert t[i] == s[i + 1]; }
    }
  }

  /** `Integer` reads exactly the varint in front, if there is one. */
  lemma IntegerIff(data: seq<Byte>, n: nat)
    ensures Integer(data).Ok? && Integer(data).value.n == n <==> n <= |data| && IsVarint(data[..n])
    ensures Integer(data).Ok? ==> Integer(data).value.v == VarintValue(data[..Integer(data).value.n])
  {
    hide ReadFrom, IsVarint, Groups;
    ReadFromEnds(data, 0, 1, 0, n);
    ReadFromAdds(data, 0, 1, 0);
    if n <= |data| && IsVarint(data[..n]) { VarintLength(data[..n]); }
  }

  lemma VarintLength(s: seq<Byte>)
    requires IsVarint(s)
    ensures 0 < |s| <= 10
  {
  }

  lemma IntegerOf(s: seq<Byte>, rest: seq<Byte>)
    requires IsVarint(s)
    ensures Integer(s + rest) == Ok(Token(VarintValue(s), |s|))
  {
    hide IsVarint, Integer;
    assert (s + rest)[..|s|] == s;
    IntegerIff(s + rest, |s|);
  }

  /** A varint without a needless last byte. */
  predicate IsShortest(s: seq<Byte>) {
    && s != [] && s[|s| - 1] < 128 && (|s| > 1 ==> s[|s| - 1] != 0)
    && forall i :: 0 <= i < |s| - 1 ==> s[i] >= 128
  }

  lemma ShortestCons(s: seq<Byte>)
    requires |s| > 1
    ensures IsShortest(s) <==> s[0] >= 128 && IsShortest(s[1..]) && s[1..] != [0]
  {
    var t := s[1..];
    if s[0] >= 128 && IsShortest(t) {
      forall i | 0 <= i < |s| - 1 ensures s[i] >= 128 {
        if i > 0 { assert s[i] == t[i - 1]; }
      }
    }
    if IsShortest(s) {
      forall i | 0 <= i < |t| - 1 ensures t[i] >= 128 { assert t[i] == s[i + 1]; }
    }
  }

  lemma GroupDigits(b: Byte, rest: nat)
    ensures (b % 128 + 128 * rest) / 128 == rest && (b % 128 + 128 * rest) % 128 == b % 128
  {
  }

  lemma {:induction false} ShortestNotZero(s: seq<Byte>)
    requires IsShortest(s) && s != [0]
    ensures Groups(s) > 0
  {
    if |s| == 1 {
      assert s[1..] == [];
    } else {
      ShortestCons(s);
      ShortestNotZero(s[1..]);
    }
  }

  lemma {:induction false} WrittenIsShortest(v: nat)
    ensures IsShortest(VarintBytes(v)) && Groups(VarintBytes(v)) == v && (v > 0 ==> VarintBytes(v) != [0])
  {
    if v < 128 {
      assert [v][1..] == [];
    } else {
      var s := [v % 128 + 128] + VarintBytes(v / 128);
      assert s[1..] == VarintBytes(v / 128);
      WrittenIsShortest(v / 128);
      ShortestCons(s);
    }
  }

  lemma {:induction false} ShortestIsWritten(s: seq<Byte>)
    requires IsShortest(s)
    ensures VarintBytes(Groups(s)) == s
  {
    if |s| == 1 {
      assert s[1..] == [] && s == [s[0]];
    } else {
      var t := s[1..];
      ShortestCons(s);
      ShortestNotZero(t);
      ShortestIsWritten(t);
      GroupDigits(s[0], Groups(t));
      assert s == [s[0]] + t;
    }
  }

  /** The bytes written for a number are the one shortest varint of that value. */
  lemma WrittenIff(v: nat, s: seq<Byte>)
    ensures s == VarintBytes(v) <==> IsShortest(s) && Groups(s) == v
  {
    hide VarintBytes, IsShortest, Groups;
    WrittenIsShortest(v);
    if IsShortest(s) && Groups(s) == v { ShortestIsWritten(s); }
  }

  lemma WrittenIsVarint(v: nat)
    requires v < U64
    ensures IsVarint(VarintBytes(v)) && VarintValue(VarintBytes(v)) == v
  {
    var s := VarintBytes(v);
    ReadVarintBack(v, []);
    hide VarintBytes, ReadFrom, IsVarint;
    assert s + [] == s && s[..|s|] == s;
    IntegerIff(s, |s|);
  }

  // ------------------------------------------------------------------ fields

  /** A field: a tag and its payload, or nested fields between an opening and a closing tag. */
  datatype Field =
    | Leaf(tag: seq<Byte>, payload: seq<Byte>)
    | Group(open: seq<Byte>, inner: Fields, close: seq<Byte>)

  datatype Fields = Nil | Cons(head: Field, tail: Fields)

  /** A varint whose low three bits are the wire type. */
  predicate IsTag(s: seq<Byte>, wireType: nat) { IsVarint(s) && VarintValue(s) % 8 == wireType }

  /** A length and as many bytes. */
  ghost predicate IsDelimited(s: seq<Byte>) {
    exists n :: 0 < n <= |s| && LengthPrefix(s, n)
  }

  predicate LengthPrefix(s: seq<Byte>, n: nat) {
    n <= |s| && IsVarint(s[..n]) && VarintValue(s[..n]) == |s| - n
  }

  /** The payload that goes with a wire type. */
  ghost predicate IsPayload(s: seq<Byte>, wireType: nat) {
    match wireType
    case 0 => IsVarint(s)
    case 1 => |s| == 8
    case 2 => IsDelimited(s)
    case 5 => |s| == 4
    case _ => false
  }

  ghost predicate WellFormed(f: Field) {
    match f
    case Leaf(tag, payload) => IsVarint(tag) && IsPayload(payload, VarintValue(tag) % 8)
    case Group(open, inner, close) => IsTag(open, 3) && AllWellFormed(inner) && IsTag(close, 4)
  }

  ghost predicate AllWellFormed(fs: Fields) {
    match fs
    case Nil => true
    case Cons(f, rest) => WellFormed(f) && AllWellFormed(rest)
  }

  function Bytes(f: Field): seq<Byte> {
    match f
    case Leaf(tag, payload) => tag + payload
    case Group(open, inner, close) => open + AllBytes(inner) + close
  }

  function AllBytes(fs: Fields): seq<Byte> {
    match fs
    case Nil => []
    case Cons(f, rest) => Bytes(f) + AllBytes(rest)
  }

  // ------------------------------------------------------- one hop of the loop

  /** A leaf is one hop, at any depth. */
  lemma LeafHop(tag: seq<Byte>, payload: seq<Byte>, rest: seq<Byte>, depth: nat)
    requires WellFormed(Leaf(tag, payload)) && |payload| < I64
    ensures SkipOne(tag + payload + rest, depth) == Ok(Hop(|tag| + |payload|, depth))
  {
    hide IsVarint, Integer, VarintValue;
    var data := tag + payload + rest;
    assert data == tag + (payload + rest);
    IntegerOf(tag, payload + rest);
    assert data[|tag|..] == payload + rest;
    var w := VarintValue(tag) % 8;
    if w == 0 {
      IntegerOf(payload, rest);
    } else if w == 2 {
      var n :| 0 < n <= |payload| && LengthPrefix(payload, n);
      assert payload + rest == payload[..n] + (payload[n..] + rest);
      IntegerOf(payload[..n], payload[n..] + rest);
    }
  }

  lemma TagHop(tag: seq<Byte>, rest: seq<Byte>, depth: nat)
    requires IsVarint(tag)
    ensures VarintValue(tag) % 8 == 3 ==> SkipOne(tag + rest, depth) == Ok(Hop(|tag|, depth + 1))
    ensures VarintValue(tag) % 8 == 4 && depth > 0 ==> SkipOne(tag + rest, depth) == Ok(Hop(|tag|, depth - 1))
  {
    hide IsVarint, Integer, VarintValue;
    IntegerOf(tag, rest);
  }

  /** What a hop has moved over, when it stays in the buffer: a leaf, or the opening or closing tag of a group. */
  lemma HopMeans(data: seq<Byte>, depth: nat, h: Hop)
    requires SkipOne(data, depth) == Ok(h) && h.n <= |data| && |data| < I64
    ensures h.depth == depth ==>
              exists k :: 0 < k <= h.n && WellFormed(Leaf(data[..k], data[k..h.n]))
    ensures h.depth == depth + 1 ==> IsTag(data[..h.n], 3)
    ensures h.depth == depth - 1 ==> depth > 0 && IsTag(data[..h.n], 4)
    ensures h.depth == depth || h.depth == depth + 1 || h.depth == depth - 1
  {
    hide IsVarint, Integer, VarintValue;
    var w := Integer(data).value;
    IntegerIff(data, w.n);
    var rest := data[w.n..];
    var t := w.v % 8;
    if t == 0 {
      var p := Integer(rest).value;
      IntegerIff(rest, p.n);
      assert data[w.n..h.n] == rest[..p.n];
    } else if t == 2 {
      var len := Integer(rest).value;
      IntegerIff(rest, len.n);
      var payload := data[w.n..h.n];
      assert payload[..len.n] == rest[..len.n];
      VarintLength(rest[..len.n]);
      assert LengthPrefix(payload, len.n);
    }
    if h.depth == depth {
      assert WellFormed(Leaf(data[..w.n], data[w.n..h.n]));
    }
  }

  // --------------------------------------------------- a field is skipped whole

  lemma SkipStep(data: seq<Byte>, at: nat, depth: nat, h: Hop)
    requires data != [] && SkipOne(data, depth) == Ok(h)
    ensures SkipFrom(data, at, depth) ==
              if at + h.n >= I64 then Err(InvalidLength)
              else if h.depth == 0 then Ok(at + h.n)
              else if h.n >= |data| then Err(UnexpectedEOF)
              else SkipFrom(data[h.n..], at + h.n, h.depth)
  {
    hide SkipOne;
  }

  lemma SkipReturns(data: seq<Byte>, at: nat, depth: nat)
    requires SkipFrom(data, at, depth).Ok?
    ensures data != [] && SkipOne(data, depth).Ok?
  {
    hide SkipOne;
  }

  /** At depth zero skipping ends behind the field; inside a group it goes on there. */
  lemma {:induction false} SkipOver(f: Field, rest: seq<Byte>, at: nat, depth: nat)
    requires WellFormed(f) && at + |Bytes(f)| < I64 && (depth > 0 ==> rest != [])
    ensures SkipFrom(Bytes(f) + rest, at, depth) ==
              if depth == 0 then Ok(at + |Bytes(f)|) else SkipFrom(rest, at + |Bytes(f)|, depth)
    decreases f
  {
    hide SkipOne, SkipFrom, IsVarint, VarintValue, IsPayload;
    var data := Bytes(f) + rest;
    match f {
      case Leaf(tag, payload) =>
        assert |tag| > 0 by { VarintLength(tag); }
        LeafHop(tag, payload, rest, depth);
        SkipStep(data, at, depth, Hop(|tag| + |payload|, depth));
        assert data[|tag| + |payload|..] == rest;
      case Group(open, inner, close) =>
        VarintLength(open);
        VarintLength(close);
        var body := AllBytes(inner) + (close + rest);
        assert data == open + body && data[|open|..] == body;
        TagHop(open, body, depth);
        SkipStep(data, at, depth, Hop(|open|, depth + 1));
        SkipOverAll(inner, close + rest, at + |open|, depth + 1);
        TagHop(close, rest, depth + 1);
        SkipStep(close + rest, at + |open| + |AllBytes(inner)|, depth + 1, Hop(|close|, depth));
        assert (close + rest)[|close|..] == rest;
    }
  }

  lemma {:induction false} SkipOverAll(fs: Fields, rest: seq<Byte>, at: nat, depth: nat)
    requires AllWellFormed(fs) && at + |AllBytes(fs)| < I64 && depth > 0 && rest != []
    ensures SkipFrom(AllBytes(fs) + rest, at, depth) == SkipFrom(rest, at + |AllBytes(fs)|, depth)
    decreases fs
  {
    hide SkipFrom, WellFormed;
    match fs {
      case Nil =>
        assert AllBytes(fs) + rest == rest;
      case Cons(f, tail) =>
        assert AllBytes(fs) + rest == Bytes(f) + (AllBytes(tail) + rest);
        SkipOver(f, AllBytes(tail) + rest, at, depth);
        SkipOverAll(tail, rest, at + |Bytes(f)|, depth);
    }
  }

  // ------------------------------------------------- what is skipped is a field

  /** Fields up to the closing tag of the group they are in. */
  datatype Level = Level(fields: Fields, close: seq<Byte>)

  function LevelBytes(ls: seq<Level>): seq<Byte> {
    if ls == [] then [] else AllBytes(ls[0].fields) + ls[0].close + LevelBytes(ls[1..])
  }

  ghost predicate LevelsOk(ls: seq<Level>) {
    forall i :: 0 <= i < |ls| ==> AllWellFormed(ls[i].fields) && IsTag(ls[i].close, 4)
  }

  /** The first of some levels with a field in front of it. */
  lemma Prepend(f: Field, ls: seq<Level>) returns (r: seq<Level>)
    requires WellFormed(f) && ls != [] && LevelsOk(ls)
    ensures |r| == |ls| && LevelsOk(r) && LevelBytes(r) == Bytes(f) + LevelBytes(ls)
  {
    hide WellFormed, IsTag, Bytes;
    r := [Level(Cons(f, ls[0].fields), ls[0].close)] + ls[1..];
    assert r[1..] == ls[1..];
    var b, a, c, l := Bytes(f), AllBytes(ls[0].fields), ls[0].close, LevelBytes(ls[1..]);
    assert AllBytes(r[0].fields) == b + a;
    assert (b + a) + c + l == b + (a + c + l);
  }

  lemma ClosedLevel(close: seq<Byte>, ls: seq<Level>) returns (r: seq<Level>)
    requires IsTag(close, 4) && LevelsOk(ls)
    ensures |r| == |ls| + 1 && LevelsOk(r) && LevelBytes(r) == close + LevelBytes(ls)
  {
    hide IsTag;
    r := [Level(Nil, close)] + ls;
    assert r[1..] == ls;
  }

  /** The first level becomes a group in front of the second. */
  lemma OpenedGroup(open: seq<Byte>, ls: seq<Level>) returns (r: seq<Level>)
    requires IsTag(open, 3) && |ls| >= 2 && LevelsOk(ls)
    ensures |r| == |ls| - 1 && LevelsOk(r) && LevelBytes(r) == open + LevelBytes(ls)
  {
    hide IsTag;
    var g := Group(open, ls[0].fields, ls[0].close);
    r := Prepend(g, ls[1..]);
    assert LevelBytes(ls) == AllBytes(ls[0].fields) + ls[0].close + LevelBytes(ls[1..]);
    assert open + (AllBytes(ls[0].fields) + ls[0].close + LevelBytes(ls[1..])) == Bytes(g) + LevelBytes(ls[1..]);
  }

  /** What skipping moves over from inside some groups is what is left of them, level by level. */
  lemma {:induction false} Unskip(data: seq<Byte>, at: nat, depth: nat, m: nat) returns (ls: seq<Level>)
    requires depth > 0 && at <= m <= at + |data| && |data| < I64 && SkipFrom(data, at, depth) == Ok(m)
    ensures |ls| == depth && LevelsOk(ls) && LevelBytes(ls) == data[..m - at]
    decreases |data|
  {
    hide SkipOne, SkipFrom, LevelsOk, LevelBytes, WellFormed, IsTag;
    SkipReturns(data, at, depth);
    var h := SkipOne(data, depth).value;
    SkipStep(data, at, depth, h);
    HopMeans(data, depth, h);
    if h.depth == 0 {
      NoLevels();
      ls := ClosedLevel(data[..h.n], []);
    } else {
      var rest := data[h.n..];
      CutTwice(data, h.n, m - at);
      var inner := Unskip(rest, at + h.n, h.depth, m);
      if h.depth == depth {
        var k :| 0 < k <= h.n && WellFormed(Leaf(data[..k], data[k..h.n]));
        LeafBytes(data, k, h.n);
        ls := Prepend(Leaf(data[..k], data[k..h.n]), inner);
      } else if h.depth == depth + 1 {
        ls := OpenedGroup(data[..h.n], inner);
      } else {
        ls := ClosedLevel(data[..h.n], inner);
      }
    }
  }

  lemma NoLevels()
    ensures LevelsOk([]) && LevelBytes([]) == []
  {
  }

  lemma SkippedIsField(data: seq<Byte>, n: nat) returns (f: Field)
    requires Skip(data) == Ok(n) && n <= |data| && |data| < I64
    ensures WellFormed(f) && Bytes(f) == data[..n]
  {
    hide SkipOne, SkipFrom, IsTag, LevelsOk, LevelBytes, WellFormed, Bytes;
    SkipReturns(data, 0, 0);
    var h := SkipOne(data, 0).value;
    SkipStep(data, 0, 0, h);
    HopMeans(data, 0, h);
    if h.depth == 0 {
      var k :| 0 < k <= h.n && WellFormed(Leaf(data[..k], data[k..h.n]));
      f := Leaf(data[..k], data[k..h.n]);
      LeafBytes(data, k, h.n);
    } else {
      var rest := data[h.n..];
      var ls := Unskip(rest, h.n, 1, n);
      f := LastGroup(data[..h.n], ls);
      CutTwice(data, h.n, n);
    }
  }

  lemma CutTwice(data: seq<Byte>, k: nat, n: nat)
    requires k <= n <= |data|
    ensures data[..n] == data[..k] + data[k..][..n - k]
  {
  }

  lemma LeafBytes(data: seq<Byte>, k: nat, n: nat)
    requires k <= n <= |data|
    ensures Bytes(Leaf(data[..k], data[k..n])) == data[..n]
  {
  }

  /** One level behind an opening tag is a group. */
  lemma LastGroup(open: seq<Byte>, ls: seq<Level>) returns (f: Field)
    requires IsTag(open, 3) && |ls| == 1 && LevelsOk(ls)
    ensures WellFormed(f) && Bytes(f) == open + LevelBytes(ls)
  {
    hide IsTag;
    f := Group(open, ls[0].fields, ls[0].close);
    assert LevelBytes(ls[1..]) == [];
    assert LevelBytes(ls) == AllBytes(ls[0].fields) + ls[0].close;
    assert open + (AllBytes(ls[0].fields) + ls[0].close) == open + AllBytes(ls[0].fields) + ls[0].close;
  }

  /**
   Skipping moves over exactly one field, groups and all they hold included: it ends at n, inside the
   buffer, if and only if the first n bytes are a well-formed field.
   */
  lemma SkipIff(data: seq<Byte>, n: nat)
    requires |data| < I64 && n <= |data|
    ensures Skip(data) == Ok(n) <==> exists f :: WellFormed(f) && Bytes(f) == data[..n]
  {
    hide SkipFrom, WellFormed, Bytes;
    if Skip(data) == Ok(n) {
      var f := SkippedIsField(data, n);
    }
    if exists f :: WellFormed(f) && Bytes(f) == data[..n] {
      var f :| WellFormed(f) && Bytes(f) == data[..n];
      assert data == Bytes(f) + data[n..];
      SkipOver(f, data[n..], 0, 0);
    }
  }

  // ------------------------------------------------------------ field numbers

  /** The tag in front of a field. */
  function TagOf(f: Field): seq<Byte> { if f.Leaf? then f.tag else f.open }

  function FieldNumber(f: Field): int { Int32(VarintValue(TagOf(f)) / 8) }

  /** A complete record of a field with a legal number other than 1. */
  ghost predicate IsOther(f: Field) { WellFormed(f) && FieldNumber(f) > 1 }

  ghost predicate AllOther(fs: Fields) {
    match fs
    case Nil => true
    case Cons(f, rest) => IsOther(f) && AllOther(rest)
  }

  /** Some complete records of fields other than field 1, one after the other. */
  ghost predicate OtherRecords(u: seq<Byte>) {
    exists fs :: AllOther(fs) && AllBytes(fs) == u
  }

  /** A field starts with its tag, whose wire type does not close a group. */
  lemma TagInFront(f: Field, rest: seq<Byte>)
    requires WellFormed(f)
    ensures Integer(Bytes(f) + rest) == Ok(Token(VarintValue(TagOf(f)), |TagOf(f)|))
    ensures VarintValue(TagOf(f)) % 8 != 4
  {
    hide IsVarint, Integer, VarintValue;
    var tag := TagOf(f);
    var tail := if f.Leaf? then f.payload else AllBytes(f.inner) + f.close;
    assert Bytes(f) + rest == tag + (tail + rest);
    IntegerOf(tag, tail + rest);
  }

  lemma FieldNotEmpty(f: Field)
    requires WellFormed(f)
    ensures Bytes(f) != []
  {
    VarintLength(TagOf(f));
  }
}
