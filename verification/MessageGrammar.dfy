/**
 What the decoders of crypto/types/multisig.pb.go make of any bytes, told by the fields the bytes consist
 of: which byte strings are accepted, and as which message.
 */
module MessageGrammar {
  import opened Arith
  import opened Varint
  import opened Wire
  import opened WireGrammar
  import opened Multisig

  // ------------------------------------------------------------ reading a field

  function WireType(f: Field): nat { VarintValue(TagOf(f)) % 8 }

  /** How many bytes the varint in front takes. */
  function PrefixLength(s: seq<Byte>): nat {
    if s == [] then 0 else if s[0] < 128 then 1 else 1 + PrefixLength(s[1..])
  }

  /** The bytes behind a length prefix. */
  function Content(payload: seq<Byte>): seq<Byte> {
    if PrefixLength(payload) <= |payload| then payload[PrefixLength(payload)..] else []
  }

  lemma {:induction false} PrefixLengthIs(s: seq<Byte>, n: nat)
    requires 0 < n <= |s| && s[n - 1] < 128 && forall i :: 0 <= i < n - 1 ==> s[i] >= 128
    ensures PrefixLength(s) == n
    decreases n
  {
    if n > 1 {
      assert s[0] >= 128;
      PrefixLengthIs(s[1..], n - 1);
    }
  }

  lemma PrefixOf(payload: seq<Byte>, n: nat)
    requires n <= |payload| && IsVarint(payload[..n])
    ensures PrefixLength(payload) == n && Content(payload) == payload[n..]
  {
    assert payload[n - 1] == payload[..n][n - 1];
    assert forall i :: 0 <= i < n - 1 ==> payload[i] == payload[..n][i];
    PrefixLengthIs(payload, n);
  }

  lemma TagRead(f: Field, rest: seq<Byte>)
    requires WellFormed(f)
    ensures ReadTag(Bytes(f) + rest) ==
              if FieldNumber(f) <= 0 then Err(IllegalTag) else Ok(Tag(FieldNumber(f), WireType(f), |TagOf(f)|))
  {
    hide Integer, WellFormed, Bytes, VarintValue;
    TagInFront(f, rest);
  }

  /** Behind the tag of a leaf is its payload. */
  lemma BehindTag(f: Field, rest: seq<Byte>)
    requires f.Leaf?
    ensures (Bytes(f) + rest)[|TagOf(f)|..] == f.payload + rest && |Bytes(f)| == |TagOf(f)| + |f.payload|
  {
  }

  /** The payload that goes with the wire types of known fields. */
  lemma KnownPayload(f: Field)
    requires WellFormed(f)
    ensures WireType(f) == 0 ==> f.Leaf? && IsVarint(f.payload)
    ensures WireType(f) == 2 ==> f.Leaf? && IsDelimited(f.payload)
  {
    hide IsVarint, VarintValue, IsDelimited, AllWellFormed;
  }

  lemma FieldSkipped(f: Field, rest: seq<Byte>, at: nat)
    requires WellFormed(f) && at + |Bytes(f) + rest| < I64
    ensures SkipField(Bytes(f) + rest, at) == Ok(|Bytes(f)|)
  {
    hide Skip, WellFormed, Bytes;
    var data := Bytes(f) + rest;
    assert data[..|Bytes(f)|] == Bytes(f);
    SkipIff(data, |Bytes(f)|);
  }

  lemma SpanRead(payload: seq<Byte>, rest: seq<Byte>, at: nat)
    requires IsDelimited(payload) && at + |payload| < I64
    ensures ReadSpan(payload + rest, at) == Ok(Span(PrefixLength(payload), |payload|))
    ensures PrefixLength(payload) <= |payload|
    ensures (payload + rest)[PrefixLength(payload)..|payload|] == Content(payload)
  {
    hide IsVarint, Integer, VarintValue, PrefixLength, Content;
    var n :| 0 < n <= |payload| && LengthPrefix(payload, n);
    PrefixOf(payload, n);
    SplitFront(payload, rest, n);
    IntegerOf(payload[..n], payload[n..] + rest);
  }

  lemma SplitFront(payload: seq<Byte>, rest: seq<Byte>, n: nat)
    requires n <= |payload|
    ensures payload + rest == payload[..n] + (payload[n..] + rest)
    ensures (payload + rest)[n..|payload|] == payload[n..]
  {
  }

  /** What a span that was read consists of. */
  lemma SpanMeans(data: seq<Byte>, at: nat, sp: Span)
    requires ReadSpan(data, at) == Ok(sp)
    ensures sp.end <= |data| && IsDelimited(data[..sp.end]) && Content(data[..sp.end]) == data[sp.start..sp.end]
  {
    hide IsVarint, Integer, VarintValue, PrefixLength;
    var len := Integer(data).value;
    IntegerIff(data, len.n);
    var p := data[..sp.end];
    assert p[..len.n] == data[..len.n];
    VarintLength(data[..len.n]);
    assert LengthPrefix(p, len.n);
    PrefixOf(p, len.n);
  }

  /** The tag that was read is the front of any field that is there. */
  lemma TagMeans(data: seq<Byte>, tag: Tag)
    requires ReadTag(data) == Ok(tag)
    ensures tag.n <= |data| && IsVarint(data[..tag.n])
    ensures VarintValue(data[..tag.n]) % 8 == tag.wireType && Int32(VarintValue(data[..tag.n]) / 8) == tag.field
  {
    hide IsVarint, Integer, VarintValue;
    var w := Integer(data).value;
    IntegerIff(data, w.n);
  }

  // ------------------------------------------------------------ the bit array

  /** A field the decoder takes: a legal number, field 1 a varint, field 2 length-delimited. */
  ghost predicate LegalBits(f: Field) {
    && WellFormed(f) && FieldNumber(f) > 0
    && (FieldNumber(f) == 1 ==> WireType(f) == 0) && (FieldNumber(f) == 2 ==> WireType(f) == 2)
  }

  ghost predicate AllLegalBits(fs: Fields) {
    match fs
    case Nil => true
    case Cons(f, rest) => LegalBits(f) && AllLegalBits(rest)
  }

  /** The last field with this number, if there is one. */
  function LastField(fs: Fields, number: int): Option<Field> {
    match fs
    case Nil => None
    case Cons(f, rest) =>
      var later := LastField(rest, number);
      if later.Some? then later else if FieldNumber(f) == number then Some(f) else None
  }

  function PayloadOf(f: Field): seq<Byte> { if f.Leaf? then f.payload else [] }

  /** The remainder is the last field 1 in 32 bits, the elements are the last field 2. */
  function BitsMeant(fs: Fields, before: BitArrayMessage): BitArrayMessage {
    var x, e := LastField(fs, 1), LastField(fs, 2);
    BitArrayMessage(
      if x.Some? then VarintValue(PayloadOf(x.value)) % U32 else before.extraBitsStored,
      if e.Some? then Content(PayloadOf(e.value)) else before.elems)
  }

  lemma BitFieldRead(f: Field, rest: seq<Byte>, at: nat)
    requires LegalBits(f) && at + |Bytes(f) + rest| < I64
    ensures NextBitRecord(Bytes(f) + rest, at) ==
              if FieldNumber(f) == 1 then Ok(Extra(|Bytes(f)|, VarintValue(PayloadOf(f)) % U32))
              else if FieldNumber(f) == 2 then Ok(Elems(|Bytes(f)|, Content(PayloadOf(f))))
              else Ok(Unknown(|Bytes(f)|))
  {
    hide ReadTag, ReadSpan, SkipField, Integer, WellFormed, VarintValue, Bytes, FieldNumber, WireType, IsDelimited, Content, NextBitRecord;
    var data, tag := Bytes(f) + rest, Tag(FieldNumber(f), WireType(f), |TagOf(f)|);
    TagRead(f, rest);
    KnownPayload(f);
    if FieldNumber(f) == 1 {
      BehindTag(f, rest);
      IntegerOf(f.payload, rest);
      BitCases(data, at, tag);
    } else if FieldNumber(f) == 2 {
      BehindTag(f, rest);
      SpanRead(f.payload, rest, at + |TagOf(f)|);
      BitCases(data, at, tag);
    } else {
      FieldSkipped(f, rest, at);
      BitCases(data, at, tag);
    }
  }

  /** The cases of the decoder, by the tag in front. */
  lemma BitCases(data: seq<Byte>, at: nat, tag: Tag)
    requires ReadTag(data) == Ok(tag)
    ensures tag.n <= |data|
    ensures var body := data[tag.n..];
            && (tag.field == 1 && tag.wireType == 0 && Integer(body).Ok? ==>
                  NextBitRecord(data, at) == Ok(Extra(tag.n + Integer(body).value.n, Integer(body).value.v % U32)))
            && (tag.field == 2 && tag.wireType == 2 && ReadSpan(body, at + tag.n).Ok? ==>
                  var sp := ReadSpan(body, at + tag.n).value;
                  NextBitRecord(data, at) == Ok(Elems(tag.n + sp.end, body[sp.start..sp.end])))
            && (tag.field != 1 && tag.field != 2 && SkipField(data, at).Ok? ==>
                  NextBitRecord(data, at) == Ok(Unknown(SkipField(data, at).value)))
  {
    hide ReadTag, ReadSpan, SkipField, Integer;
  }

  /** A field 1 that is no varint, or a field 2 that is not length-delimited, is refused. */
  lemma WrongTypeRefused(f: Field, rest: seq<Byte>, at: nat, m: BitArrayMessage)
    requires WellFormed(f)
    requires (FieldNumber(f) == 1 && WireType(f) != 0) || (FieldNumber(f) == 2 && WireType(f) != 2)
    ensures DecodeBitsFrom(Bytes(f) + rest, at, m) == Err(WrongWireType)
  {
    TagRead(f, rest);
    FieldNotEmpty(f);
    hide ReadTag, ReadSpan, SkipField, Integer, WellFormed, Bytes, FieldNumber, WireType;
  }

  lemma {:induction false} BitsDecodeFrom(fs: Fields, at: nat, m: BitArrayMessage)
    requires AllLegalBits(fs) && at + |AllBytes(fs)| < I64
    ensures DecodeBitsFrom(AllBytes(fs), at, m) == Ok(BitsMeant(fs, m))
    decreases fs
  {
    hide NextBitRecord, Bytes, LegalBits, FieldNumber, VarintValue, Content, PayloadOf;
    if fs.Cons? {
      var f, rest := fs.head, fs.tail;
      var data, n := AllBytes(fs), |Bytes(f)|;
      BitFieldRead(f, AllBytes(rest), at);
      assert data[n..] == AllBytes(rest);
      LegalNotEmpty(f);
      var rec := NextBitRecord(data, at).value;
      DecodeOneBit(data, at, m, rec);
      hide DecodeBitsFrom, AllBytes, AllLegalBits;
      BitsDecodeFrom(rest, at + n, Set(m, rec));
      BitsMeantStep(f, rest, m, rec);
    }
  }

  lemma DecodeOneBit(data: seq<Byte>, at: nat, m: BitArrayMessage, rec: BitRecord)
    requires data != [] && NextBitRecord(data, at) == Ok(rec)
    ensures DecodeBitsFrom(data, at, m) == DecodeBitsFrom(data[rec.n..], at + rec.n, Set(m, rec))
  {
    hide NextBitRecord;
  }

  lemma BitsMeantStep(f: Field, rest: Fields, m: BitArrayMessage, rec: BitRecord)
    requires rec == if FieldNumber(f) == 1 then Extra(|Bytes(f)|, VarintValue(PayloadOf(f)) % U32)
                    else if FieldNumber(f) == 2 then Elems(|Bytes(f)|, Content(PayloadOf(f)))
                    else Unknown(|Bytes(f)|)
    ensures BitsMeant(rest, Set(m, rec)) == BitsMeant(Cons(f, rest), m)
  {
    hide Bytes, FieldNumber, VarintValue, Content, PayloadOf;
  }

  lemma LegalNotEmpty(f: Field)
    requires LegalBits(f)
    ensures Bytes(f) != []
  {
    FieldNotEmpty(f);
  }

  /** What one record of the decoder was: a legal field. */
  lemma BitRecordMeans(data: seq<Byte>, at: nat, rec: BitRecord) returns (f: Field)
    requires NextBitRecord(data, at) == Ok(rec) && at + |data| < I64
    ensures rec.n <= |data| && LegalBits(f) && Bytes(f) == data[..rec.n]
  {
    hide ReadTag, ReadSpan, SkipField, Integer, IsVarint, VarintValue, IsDelimited;
    var tag := ReadTag(data).value;
    TagMeans(data, tag);
    var t, body := data[..tag.n], data[tag.n..];
    if tag.field == 1 {
      var x := Integer(body).value;
      IntegerIff(body, x.n);
      f := Leaf(t, body[..x.n]);
      assert t + body[..x.n] == data[..rec.n];
    } else if tag.field == 2 {
      var sp := ReadSpan(body, at + tag.n).value;
      SpanMeans(body, at + tag.n, sp);
      f := Leaf(t, body[..sp.end]);
      assert t + body[..sp.end] == data[..rec.n];
    } else {
      f := SkippedField(data, at, rec.n, tag);
    }
  }

  /** A field that was skipped, with the number of the tag that was read. */
  lemma SkippedField(data: seq<Byte>, at: nat, n: nat, tag: Tag) returns (f: Field)
    requires SkipField(data, at) == Ok(n) && ReadTag(data) == Ok(tag) && at + |data| < I64
    ensures n <= |data| && WellFormed(f) && Bytes(f) == data[..n] && FieldNumber(f) == tag.field
  {
    hide ReadTag, Skip, WellFormed, Bytes, FieldNumber;
    f := SkippedIsField(data, n);
    SkippedNumber(f, data, tag);
  }

  /** The number of a field that was skipped is the one of the tag that was read. */
  lemma SkippedNumber(f: Field, data: seq<Byte>, tag: Tag)
    requires WellFormed(f) && Bytes(f) <= data && ReadTag(data) == Ok(tag)
    ensures FieldNumber(f) == tag.field
  {
    assert data == Bytes(f) + data[|Bytes(f)|..];
    TagRead(f, data[|Bytes(f)|..]);
    hide ReadTag, WellFormed, Bytes, FieldNumber, WireType;
  }

  lemma {:induction false} BitsAcceptedFrom(data: seq<Byte>, at: nat, m: BitArrayMessage) returns (fs: Fields)
    requires DecodeBitsFrom(data, at, m).Ok? && at + |data| < I64
    ensures AllLegalBits(fs) && AllBytes(fs) == data
    decreases |data|
  {
    hide NextBitRecord, Bytes, LegalBits;
    if data == [] {
      fs := Nil;
    } else {
      var rec := NextBitRecord(data, at).value;
      var f := BitRecordMeans(data, at, rec);
      var rest := BitsAcceptedFrom(data[rec.n..], at + rec.n, Set(m, rec));
      fs := Cons(f, rest);
      assert data == data[..rec.n] + data[rec.n..];
    }
  }

  /**
   The decoder of a bit array accepts exactly the lists of legal fields. The message is the last field 1 in
   32 bits and the content of the last field 2, whatever else there is between and behind them.
   */
  lemma DecodeBitsIff(data: seq<Byte>, m: BitArrayMessage)
    requires |data| < I64
    ensures DecodeBits(data) == Ok(m) <==>
              exists fs :: AllLegalBits(fs) && AllBytes(fs) == data && m == BitsMeant(fs, BitArrayMessage(0, []))
  {
    hide DecodeBitsFrom, AllLegalBits, AllBytes, BitsMeant;
    var empty := BitArrayMessage(0, []);
    if DecodeBits(data) == Ok(m) {
      var fs := BitsAcceptedFrom(data, 0, empty);
      BitsDecodeFrom(fs, 0, empty);
    }
    forall fs | AllLegalBits(fs) && AllBytes(fs) == data ensures DecodeBits(data) == Ok(BitsMeant(fs, empty)) {
      BitsDecodeFrom(fs, 0, empty);
    }
  }

  /** A remainder of 3, the element A0 and a field 3 that is not known: the first two are kept. */
  lemma UnknownFieldIsSkipped()
    ensures DecodeBits([0x08, 0x03, 0x12, 0x01, 0xa0, 0x18, 0x01]) == Ok(BitArrayMessage(3, [0xa0]))
  {
    hide LegalBits, VarintValue, FieldNumber, DecodeBitsFrom, PrefixLength, AllLegalBits, BitsMeant, AllBytes, LastField;
    SmallLeaves();
    var x, e, u := Leaf([0x08], [0x03]), Leaf([0x12], [0x01, 0xa0]), Leaf([0x18], [0x01]);
    assert Bytes(x) == [0x08, 0x03] && Bytes(e) == [0x12, 0x01, 0xa0] && Bytes(u) == [0x18, 0x01];
    assert Bytes(x) + Bytes(e) + Bytes(u) == [0x08, 0x03, 0x12, 0x01, 0xa0, 0x18, 0x01];
    SmallMessage(x, e, u);
    hide DecodeBits;
    ContentOfTwo();
  }

  lemma ContentOfTwo()
    ensures Content([0x01, 0xa0]) == [0xa0]
  {
    var p: seq<Byte> := [0x01, 0xa0];
    assert PrefixLength(p) == 1 && p[1..] == [0xa0];
  }

  /** Three fields numbered 1, 2 and 3. */
  lemma SmallMessage(x: Field, e: Field, u: Field)
    requires LegalBits(x) && LegalBits(e) && LegalBits(u) && |Bytes(x) + Bytes(e) + Bytes(u)| < I64
    requires FieldNumber(x) == 1 && FieldNumber(e) == 2 && FieldNumber(u) == 3
    ensures DecodeBits(Bytes(x) + Bytes(e) + Bytes(u))
         == Ok(BitArrayMessage(VarintValue(PayloadOf(x)) % U32, Content(PayloadOf(e))))
  {
    hide LegalBits, VarintValue, FieldNumber, DecodeBitsFrom, Content, Bytes, PayloadOf;
    var three := Cons(u, Nil);
    var two := Cons(e, three);
    var fs := Cons(x, two);
    assert AllBytes(three) == Bytes(u) && AllBytes(two) == Bytes(e) + Bytes(u);
    assert AllBytes(fs) == Bytes(x) + Bytes(e) + Bytes(u);
    assert LastField(three, 1) == None && LastField(three, 2) == None;
    assert LastField(two, 1) == None && LastField(two, 2) == Some(e);
    assert AllLegalBits(three) && AllLegalBits(two) && AllLegalBits(fs);
    BitsDecodeFrom(fs, 0, BitArrayMessage(0, []));
  }

  lemma SmallVarint(b: Byte)
    requires b < 128
    ensures IsVarint([b]) && VarintValue([b]) == b
  {
    assert [b][1..] == [];
    assert Groups([b]) == b % 128 + 128 * Groups([]) == b;
  }

  lemma SmallLeaves()
    ensures LegalBits(Leaf([0x08], [0x03])) && LegalBits(Leaf([0x12], [0x01, 0xa0])) && LegalBits(Leaf([0x18], [0x01]))
    ensures FieldNumber(Leaf([0x08], [0x03])) == 1 && FieldNumber(Leaf([0x12], [0x01, 0xa0])) == 2
    ensures FieldNumber(Leaf([0x18], [0x01])) == 3 && VarintValue([0x03]) == 3
  {
    SmallVarint(0x08);
    SmallVarint(0x12);
    SmallVarint(0x18);
    SmallVarint(0x03);
    SmallVarint(0x01);
    hide IsVarint, VarintValue;
    var p: seq<Byte> := [0x01, 0xa0];
    assert p[..1] == [0x01];
    assert LengthPrefix(p, 1);
  }

  // ------------------------------------------------------- the multi-signature

  ghost predicate LegalSignature(f: Field) {
    WellFormed(f) && FieldNumber(f) > 0 && (FieldNumber(f) == 1 ==> WireType(f) == 2)
  }

  ghost predicate AllLegalSignatures(fs: Fields) {
    match fs
    case Nil => true
    case Cons(f, rest) => LegalSignature(f) && AllLegalSignatures(rest)
  }

  /** The contents of the fields 1, in order. */
  function SignaturesMeant(fs: Fields): seq<seq<Byte>> {
    match fs
    case Nil => []
    case Cons(f, rest) => (if FieldNumber(f) == 1 then [Content(PayloadOf(f))] else []) + SignaturesMeant(rest)
  }

  /** The bytes of all other fields, in order. */
  function OthersMeant(fs: Fields): seq<Byte> {
    match fs
    case Nil => []
    case Cons(f, rest) => (if FieldNumber(f) == 1 then [] else Bytes(f)) + OthersMeant(rest)
  }

  lemma SignatureFieldRead(f: Field, rest: seq<Byte>, at: nat)
    requires LegalSignature(f) && at + |Bytes(f) + rest| < I64
    ensures NextRecord(Bytes(f) + rest, at) ==
              if FieldNumber(f) == 1 then Ok(Signature(|Bytes(f)|, Content(PayloadOf(f)))) else Ok(Other(|Bytes(f)|))
  {
    hide ReadTag, ReadSpan, SkipField, Integer, WellFormed, VarintValue, Bytes, FieldNumber, WireType, IsDelimited, Content, NextRecord;
    var data, tag := Bytes(f) + rest, Tag(FieldNumber(f), WireType(f), |TagOf(f)|);
    TagRead(f, rest);
    KnownPayload(f);
    if FieldNumber(f) == 1 {
      BehindTag(f, rest);
      SpanRead(f.payload, rest, at + |TagOf(f)|);
    } else {
      FieldSkipped(f, rest, at);
    }
    SignatureCases(data, at, tag);
  }

  lemma SignatureCases(data: seq<Byte>, at: nat, tag: Tag)
    requires ReadTag(data) == Ok(tag)
    ensures tag.n <= |data|
    ensures var body := data[tag.n..];
            && (tag.field == 1 && tag.wireType == 2 && ReadSpan(body, at + tag.n).Ok? ==>
                  var sp := ReadSpan(body, at + tag.n).value;
                  NextRecord(data, at) == Ok(Signature(tag.n + sp.end, body[sp.start..sp.end])))
            && (tag.field != 1 && SkipField(data, at).Ok? ==>
                  NextRecord(data, at) == Ok(Other(SkipField(data, at).value)))
  {
    hide ReadTag, ReadSpan, SkipField, Integer;
  }

  lemma {:induction false} SignaturesDecodeFrom(fs: Fields, at: nat, m: MultiSignature)
    requires AllLegalSignatures(fs) && at + |AllBytes(fs)| < I64
    ensures DecodeFrom(AllBytes(fs), at, m)
         == Ok(MultiSignature(m.signatures + SignaturesMeant(fs), m.unrecognized + OthersMeant(fs)))
    decreases fs
  {
    hide NextRecord, Bytes, LegalSignature, FieldNumber, Content, PayloadOf, WellFormed;
    if fs.Nil? {
      assert m.signatures + [] == m.signatures && m.unrecognized + [] == m.unrecognized;
    } else {
      var f, rest := fs.head, fs.tail;
      var data, n := AllBytes(fs), |Bytes(f)|;
      SignatureFieldRead(f, AllBytes(rest), at);
      SignatureNotEmpty(f);
      assert data[n..] == AllBytes(rest) && data[..n] == Bytes(f);
      var rec := NextRecord(data, at).value;
      var m' := Append(m, data, rec);
      DecodeOne(data, at, m, rec);
      hide DecodeFrom, AllBytes, AllLegalSignatures;
      SignaturesDecodeFrom(rest, at + n, m');
      Regrouped(m.signatures, if FieldNumber(f) == 1 then [Content(PayloadOf(f))] else [], SignaturesMeant(rest));
      Regrouped(m.unrecognized, if FieldNumber(f) == 1 then [] else Bytes(f), OthersMeant(rest));
    }
  }

  lemma SignatureNotEmpty(f: Field)
    requires LegalSignature(f)
    ensures Bytes(f) != []
  {
    FieldNotEmpty(f);
  }

  lemma DecodeOne(data: seq<Byte>, at: nat, m: MultiSignature, rec: Record)
    requires data != [] && NextRecord(data, at) == Ok(rec)
    ensures DecodeFrom(data, at, m) == DecodeFrom(data[rec.n..], at + rec.n, Append(m, data, rec))
  {
    hide NextRecord;
  }

  lemma Regrouped<T>(a: seq<T>, b: seq<T>, c: seq<T>)
    ensures (a + b) + c == a + (b + c) && (b == [] ==> a + b == a)
  {
  }

  lemma SignatureRecordMeans(data: seq<Byte>, at: nat, rec: Record) returns (f: Field)
    requires NextRecord(data, at) == Ok(rec) && at + |data| < I64
    ensures rec.n <= |data| && LegalSignature(f) && Bytes(f) == data[..rec.n]
  {
    hide ReadTag, ReadSpan, SkipField, Integer, IsVarint, VarintValue, IsDelimited;
    var tag := ReadTag(data).value;
    TagMeans(data, tag);
    var t, body := data[..tag.n], data[tag.n..];
    if tag.field == 1 {
      var sp := ReadSpan(body, at + tag.n).value;
      SpanMeans(body, at + tag.n, sp);
      f := Leaf(t, body[..sp.end]);
      assert t + body[..sp.end] == data[..rec.n];
    } else {
      f := SkippedField(data, at, rec.n, tag);
    }
  }

  lemma {:induction false} SignaturesAcceptedFrom(data: seq<Byte>, at: nat, m: MultiSignature) returns (fs: Fields)
    requires DecodeFrom(data, at, m).Ok? && at + |data| < I64
    ensures AllLegalSignatures(fs) && AllBytes(fs) == data
    decreases |data|
  {
    hide NextRecord, Bytes, LegalSignature;
    if data == [] {
      fs := Nil;
    } else {
      var rec := NextRecord(data, at).value;
      var f := SignatureRecordMeans(data, at, rec);
      var rest := SignaturesAcceptedFrom(data[rec.n..], at + rec.n, Append(m, data, rec));
      fs := Cons(f, rest);
      assert data == data[..rec.n] + data[rec.n..];
    }
  }

  /**
   The decoder of a multi-signature accepts exactly the lists of legal fields. The signatures are the
   contents of the fields 1, the unrecognized bytes are all other fields, each in order.
   */
  lemma DecodeIff(data: seq<Byte>, m: MultiSignature)
    requires |data| < I64
    ensures Decode(data) == Ok(m) <==>
              exists fs :: AllLegalSignatures(fs) && AllBytes(fs) == data
                && m == MultiSignature(SignaturesMeant(fs), OthersMeant(fs))
  {
    hide DecodeFrom, AllLegalSignatures, AllBytes, SignaturesMeant, OthersMeant;
    var empty := MultiSignature([], []);
    if Decode(data) == Ok(m) {
      var fs := SignaturesAcceptedFrom(data, 0, empty);
      SignaturesDecodeFrom(fs, 0, empty);
      assert [] + SignaturesMeant(fs) == SignaturesMeant(fs) && [] + OthersMeant(fs) == OthersMeant(fs);
    }
    forall fs | AllLegalSignatures(fs) && AllBytes(fs) == data
      ensures Decode(data) == Ok(MultiSignature(SignaturesMeant(fs), OthersMeant(fs)))
    {
      SignaturesDecodeFrom(fs, 0, empty);
      assert [] + SignaturesMeant(fs) == SignaturesMeant(fs) && [] + OthersMeant(fs) == OthersMeant(fs);
    }
  }

  // ------------------------------------------------------------ what is written

  /** A tag of one byte and a delimited payload. */
  lemma WrittenDelimited(tag: Byte, payload: seq<Byte>, number: nat)
    requires tag < 128 && tag == 8 * number + 2 && |payload| < U64
    ensures var f := Leaf([tag], Delimited(payload));
            && WellFormed(f) && FieldNumber(f) == number && WireType(f) == 2 && Content(f.payload) == payload
            && Bytes(f) == [tag] + Delimited(payload)
  {
    var p, n := Delimited(payload), |VarintBytes(|payload|)|;
    SmallVarint(tag);
    WrittenIsVarint(|payload|);
    hide IsVarint, VarintValue, VarintBytes;
    assert p[..n] == VarintBytes(|payload|) && p[n..] == payload;
    assert LengthPrefix(p, n);
    PrefixOf(p, n);
  }

  lemma WrittenInteger(tag: Byte, v: nat, number: nat)
    requires tag < 128 && tag == 8 * number && v < U64
    ensures var f := Leaf([tag], VarintBytes(v));
            && WellFormed(f) && FieldNumber(f) == number && WireType(f) == 0 && VarintValue(f.payload) == v
            && Bytes(f) == [tag] + VarintBytes(v)
  {
    SmallVarint(tag);
    WrittenIsVarint(v);
    hide IsVarint, VarintValue, VarintBytes;
  }

  lemma {:induction false} SignaturesWritten(sigs: seq<seq<Byte>>) returns (fs: Fields)
    requires forall i :: 0 <= i < |sigs| ==> |sigs[i]| < U64
    ensures AllLegalSignatures(fs) && AllBytes(fs) == EncodeSignatures(sigs)
    ensures SignaturesMeant(fs) == sigs && OthersMeant(fs) == []
  {
    fs := Nil;
    if sigs != [] {
      var rest := SignaturesWritten(sigs[1..]);
      WrittenDelimited(SIGNATURES_TAG, sigs[0], 1);
      hide Delimited, Bytes, FieldNumber, WireType, WellFormed, Content;
      fs := Cons(Leaf([SIGNATURES_TAG], Delimited(sigs[0])), rest);
      assert sigs == [sigs[0]] + sigs[1..];
    }
  }

  /** What is written for a message: its signatures as fields 1, in order, and behind them the unrecognized bytes. */
  lemma EncodeMeans(m: MultiSignature) returns (fs: Fields)
    requires forall i :: 0 <= i < |m.signatures| ==> |m.signatures[i]| < U64
    ensures Encode(m) == AllBytes(fs) + m.unrecognized
    ensures AllLegalSignatures(fs) && SignaturesMeant(fs) == m.signatures && OthersMeant(fs) == []
  {
    fs := SignaturesWritten(m.signatures);
  }

  /** At most one field. */
  function Optional(f: Option<Field>): Fields { if f.Some? then Cons(f.value, Nil) else Nil }

  /**
   What is written for a bit array: the remainder as a field 1, unless it is zero, and behind it the
   elements as a field 2, unless there are none.
   */
  lemma EncodeBitsMeans(m: BitArrayMessage) returns (x: Option<Field>, e: Option<Field>)
    requires m.extraBitsStored < U32 && |m.elems| < U64
    ensures EncodeBits(m) == AllBytes(Optional(x)) + AllBytes(Optional(e))
    ensures x.None? <==> m.extraBitsStored == 0
    ensures x.Some? ==> LegalBits(x.value) && FieldNumber(x.value) == 1 && VarintValue(PayloadOf(x.value)) == m.extraBitsStored
    ensures e.None? <==> m.elems == []
    ensures e.Some? ==> LegalBits(e.value) && FieldNumber(e.value) == 2 && Content(PayloadOf(e.value)) == m.elems
  {
    hide Delimited, VarintBytes, Bytes, FieldNumber, WireType, WellFormed, Content, VarintValue;
    x, e := None, None;
    if m.extraBitsStored != 0 {
      WrittenInteger(EXTRA_TAG, m.extraBitsStored, 1);
      x := Some(Leaf([EXTRA_TAG], VarintBytes(m.extraBitsStored)));
    }
    if m.elems != [] {
      WrittenDelimited(ELEMS_TAG, m.elems, 2);
      e := Some(Leaf([ELEMS_TAG], Delimited(m.elems)));
    }
  }
}
