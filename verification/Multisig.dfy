/**
 The two messages of crypto/types/multisig.pb.go: their backward-writing marshallers, their sizes
 and their decoders.
 */
module Multisig {
  import opened Arith
  import opened Varint
  import opened Wire
  import G = WireGrammar

  // -------------------------------------------------------- MultiSignature

  /** Absent and empty byte slices are not told apart on the wire. */
  datatype MultiSignature = MultiSignature(signatures: seq<seq<Byte>>, unrecognized: seq<Byte>)

  const SIGNATURES_TAG: Byte := 0x0a

  function EncodeSignatures(sigs: seq<seq<Byte>>): seq<Byte> {
    if sigs == [] then [] else [SIGNATURES_TAG] + Delimited(sigs[0]) + EncodeSignatures(sigs[1..])
  }

  /** The bytes of a message: one record a signature, in order, then the unrecognized bytes. */
  function Encode(m: MultiSignature): seq<Byte> {
    EncodeSignatures(m.signatures) + m.unrecognized
  }

  lemma {:induction false} EncodeSignaturesSnoc(sigs: seq<seq<Byte>>, s: seq<Byte>)
    ensures EncodeSignatures(sigs + [s]) == EncodeSignatures(sigs) + ([SIGNATURES_TAG] + Delimited(s))
  {
    hide Delimited;
    if sigs == [] {
      assert EncodeSignatures([s]) == [SIGNATURES_TAG] + Delimited(s) + EncodeSignatures([s][1..]);
    } else {
      assert (sigs + [s])[1..] == sigs[1..] + [s];
      EncodeSignaturesSnoc(sigs[1..], s);
    }
  }

  /** `Size`. */
  method Size(m: MultiSignature) returns (n: nat)
    ensures n == |Encode(m)|
  {
    hide Sov, VarintBytes;
    n := 0;
    for i := 0 to |m.signatures|
      invariant n == |EncodeSignatures(m.signatures[..i])|
    {
      var l := |m.signatures[i]|;
      SovIsLength(l);
      assert m.signatures[..i + 1] == m.signatures[..i] + [m.signatures[i]];
      EncodeSignaturesSnoc(m.signatures[..i], m.signatures[i]);
      n := n + 1 + l + Sov(l);
    }
    assert m.signatures[..|m.signatures|] == m.signatures;
    n := n + |m.unrecognized|;
  }

  /** `MarshalToSizedBuffer`: fills the end of the buffer, last field first, and nothing before it. */
  method MarshalToSizedBuffer(m: MultiSignature, dst: array<Byte>) returns (n: nat)
    requires |Encode(m)| <= dst.Length
    modifies dst
    ensures n == |Encode(m)|
    ensures dst[dst.Length - n..] == Encode(m)
    ensures dst[..dst.Length - n] == old(dst[..dst.Length - n])
  {
    hide Delimited, EncodeSignatures;
    var i := dst.Length - |m.unrecognized|;
    CopyBytes(dst, i, m.unrecognized);
    var k := |m.signatures|;
    SuffixBytes(m.signatures, k);
    assert dst[i..] == EncodeSignatures(m.signatures[k..]) + m.unrecognized;
    while k > 0
      invariant 0 <= k <= |m.signatures| && i <= dst.Length
      invariant dst[i..] == EncodeSignatures(m.signatures[k..]) + m.unrecognized
      invariant dst[..i] == old(dst[..i])
      decreases k
    {
      k := k - 1;
      SuffixBytes(m.signatures, k);
      ghost var tail, head, end := dst[i..], dst[..i], i;
      i := WriteDelimited(dst, i, SIGNATURES_TAG, m.signatures[k]);
      assert dst[end..] == tail;
      SplitSlice(dst, i, end);
      assert dst[..i] == head[..i] == old(dst[..end])[..i] == old(dst[..i]);
    }
    assert m.signatures[0..] == m.signatures;
    n := dst.Length - i;
  }

  lemma SplitSlice(dst: array<Byte>, i: nat, end: nat)
    requires i <= end <= dst.Length
    ensures dst[i..] == dst[i..end] + dst[end..]
  {
  }

  /** The records of a suffix of the signatures, and that they are no longer than the records of all. */
  lemma {:induction false} SuffixBytes(sigs: seq<seq<Byte>>, k: nat)
    requires k <= |sigs|
    ensures k == |sigs| ==> EncodeSignatures(sigs[k..]) == []
    ensures k < |sigs| ==>
              EncodeSignatures(sigs[k..]) == [SIGNATURES_TAG] + Delimited(sigs[k]) + EncodeSignatures(sigs[k + 1..])
    ensures |EncodeSignatures(sigs[k..])| <= |EncodeSignatures(sigs)|
    decreases k
  {
    hide Delimited;
    if k < |sigs| {
      assert sigs[k..][1..] == sigs[k + 1..];
    }
    if k > 0 {
      SuffixBytes(sigs[1..], k - 1);
      assert sigs[1..][k - 1..] == sigs[k..];
    } else {
      assert sigs[0..] == sigs;
    }
  }

  /** `Marshal` allocates exactly `Size` bytes and fills all of them. */
  method Marshal(m: MultiSignature) returns (bytes: seq<Byte>)
    ensures bytes == Encode(m)
  {
    var size := Size(m);
    var dst := new Byte[size](_ => 0);
    var n := MarshalToSizedBuffer(m, dst);
    bytes := dst[..];
    assert dst[dst.Length - n..] == dst[..];
  }

  /** What the decoder finds at the front of the bytes: a signature, or a field it keeps unread; n bytes long. */
  datatype Record = Signature(n: nat, bytes: seq<Byte>) | Other(n: nat)

  function NextRecord(data: seq<Byte>, at: nat): (r: Result<Record>)
    ensures r.Ok? ==> 0 < r.value.n <= |data|
  {
    var tag :- ReadTag(data);
    if tag.field == 1 then
      if tag.wireType != 2 then Err(WrongWireType)
      else
        var body := data[tag.n..];
        var span :- ReadSpan(body, at + tag.n);
        Ok(Signature(tag.n + span.end, body[span.start..span.end]))
    else
      var n :- SkipField(data, at);
      Ok(Other(n))
  }

  method NextRecordAt(data: array<Byte>, i: nat) returns (r: Result<Record>)
    requires i <= data.Length
    ensures r == NextRecord(data[i..], i)
  {
    hide ReadTag, ReadSpan, SkipField;
    var tag := ReadTagAt(data, i);
    if tag.Err? { return Err(tag.error); }
    if tag.value.field == 1 {
      if tag.value.wireType != 2 { return Err(WrongWireType); }
      var j := i + tag.value.n;
      assert data[j..] == data[i..][tag.value.n..];
      var span := ReadSpanAt(data, j);
      if span.Err? { return Err(span.error); }
      assert data[j + span.value.start..j + span.value.end] == data[j..][span.value.start..span.value.end];
      return Ok(Signature(tag.value.n + span.value.end, data[j + span.value.start..j + span.value.end]));
    }
    var n := SkipFieldAt(data, i);
    if n.Err? { return Err(n.error); }
    return Ok(Other(n.value));
  }

  function Append(m: MultiSignature, data: seq<Byte>, rec: Record): MultiSignature
    requires rec.n <= |data|
  {
    match rec
    case Signature(_, bytes) => m.(signatures := m.signatures + [bytes])
    case Other(n) => m.(unrecognized := m.unrecognized + data[..n])
  }

  /** The decoder on the bytes that are left, merging into m. */
  function DecodeFrom(data: seq<Byte>, at: nat, m: MultiSignature): Result<MultiSignature>
    decreases |data|
  {
    if data == [] then Ok(m)
    else
      var rec :- NextRecord(data, at);
      DecodeFrom(data[rec.n..], at + rec.n, Append(m, data, rec))
  }

  function Decode(data: seq<Byte>): Result<MultiSignature> {
    DecodeFrom(data, 0, MultiSignature([], []))
  }

  /** `Unmarshal`: an index moves over the buffer; every read is in range and every pass moves the index forward. */
  method Unmarshal(data: array<Byte>) returns (r: Result<MultiSignature>)
    ensures r == Decode(data[..])
  {
    hide NextRecord, Append;
    var i, m := 0, MultiSignature([], []);
    assert data[0..] == data[..];
    while i < data.Length
      invariant 0 <= i <= data.Length
      invariant DecodeFrom(data[i..], i, m) == Decode(data[..])
    {
      var rec := NextRecordAt(data, i);
      if rec.Err? { return Err(rec.error); }
      var n := rec.value.n;
      assert data[i + n..] == data[i..][n..];
      m := Append(m, data[i..], rec.value);
      i := i + n;
    }
    assert data[i..] == [];
    return Ok(m);
  }

  // ------------------------------------------------------------ round trip

  lemma DelimitedLength(s: seq<Byte>)
    ensures |Delimited(s)| == |VarintBytes(|s|)| + |s|
  {
  }

  /** One signature record is read back as that signature, whatever follows it. */
  lemma SignatureReadsBack(s: seq<Byte>, rest: seq<Byte>, at: nat)
    requires at + 1 + |Delimited(s)| < I64
    ensures NextRecord([SIGNATURES_TAG] + (Delimited(s) + rest), at) == Ok(Signature(1 + |Delimited(s)|, s))
  {
    var body := Delimited(s) + rest;
    assert ([SIGNATURES_TAG] + body)[1..] == body;
    DelimitedLength(s);
    hide ReadTag, ReadSpan, SkipField, VarintBytes, Delimited;
    TagReadsBack(SIGNATURES_TAG, body);
    DelimitedReadsBack(s, rest, at + 1);
  }

  lemma {:induction false} SignaturesReadBack(sigs: seq<seq<Byte>>, rest: seq<Byte>, at: nat, m: MultiSignature)
    requires at + |EncodeSignatures(sigs)| < I64
    ensures DecodeFrom(EncodeSignatures(sigs) + rest, at, m)
         == DecodeFrom(rest, at + |EncodeSignatures(sigs)|, m.(signatures := m.signatures + sigs))
    decreases |sigs|
  {
    hide DecodeFrom, Delimited;
    if sigs == [] {
      assert EncodeSignatures(sigs) + rest == rest;
      assert m.(signatures := m.signatures + sigs) == m by { assert m.signatures + sigs == m.signatures; }
    } else {
      var s, tail := sigs[0], EncodeSignatures(sigs[1..]);
      var m' := m.(signatures := m.signatures + [s]);
      assert EncodeSignatures(sigs) == [SIGNATURES_TAG] + Delimited(s) + tail;
      assert m'.signatures + sigs[1..] == m.signatures + sigs;
      assert m'.(signatures := m'.signatures + sigs[1..]) == m.(signatures := m.signatures + sigs);
      hide *;
      var next := at + 1 + |Delimited(s)|;
      assert next + |tail| == at + |EncodeSignatures(sigs)|;
      calc {
        DecodeFrom(EncodeSignatures(sigs) + rest, at, m);
        { Regroup([SIGNATURES_TAG], Delimited(s), tail, rest); }
        DecodeFrom([SIGNATURES_TAG] + (Delimited(s) + (tail + rest)), at, m);
        { RecordThenRest(s, tail + rest, at, m); }
        DecodeFrom(tail + rest, next, m');
        { SignaturesReadBack(sigs[1..], rest, next, m'); }
        DecodeFrom(rest, next + |tail|, m'.(signatures := m'.signatures + sigs[1..]));
      }
    }
  }

  lemma Regroup(a: seq<Byte>, b: seq<Byte>, c: seq<Byte>, d: seq<Byte>)
    ensures a + b + c + d == a + (b + (c + d))
  {
  }

  lemma DropFront(a: seq<Byte>, b: seq<Byte>, c: seq<Byte>)
    ensures (a + (b + c))[|a| + |b|..] == c
  {
  }

  lemma RecordThenRest(s: seq<Byte>, after: seq<Byte>, at: nat, m: MultiSignature)
    requires at + 1 + |Delimited(s)| < I64
    ensures DecodeFrom([SIGNATURES_TAG] + (Delimited(s) + after), at, m)
         == DecodeFrom(after, at + 1 + |Delimited(s)|, m.(signatures := m.signatures + [s]))
  {
    hide *;
    SignatureReadsBack(s, after, at);
    DropFront([SIGNATURES_TAG], Delimited(s), after);
    DecodeOneSignature([SIGNATURES_TAG] + (Delimited(s) + after), at, m, s, 1 + |Delimited(s)|);
  }

  lemma DecodeOneSignature(data: seq<Byte>, at: nat, m: MultiSignature, s: seq<Byte>, n: nat)
    requires data != [] && NextRecord(data, at) == Ok(Signature(n, s))
    ensures DecodeFrom(data, at, m) == DecodeFrom(data[n..], at + n, m.(signatures := m.signatures + [s]))
  {
    hide NextRecord;
  }

  /** A concatenation of complete records of fields other than the signatures. */
  predicate OtherFields(u: seq<Byte>, at: nat)
    decreases |u|
  {
    u == [] ||
    (NextRecord(u, at).Ok? && NextRecord(u, at).value.Other?
     && OtherFields(u[NextRecord(u, at).value.n..], at + NextRecord(u, at).value.n))
  }

  /** Decoding only ever appends. */
  lemma {:induction false} DecodeGrows(data: seq<Byte>, at: nat, m: MultiSignature)
    requires DecodeFrom(data, at, m).Ok?
    ensures |DecodeFrom(data, at, m).value.signatures| >= |m.signatures|
    decreases |data|
  {
    hide NextRecord;
    if data != [] {
      var rec := NextRecord(data, at).value;
      DecodeGrows(data[rec.n..], at + rec.n, Append(m, data, rec));
    }
  }

  /** Bytes decode to nothing but unrecognized bytes exactly when they are records of other fields. */
  lemma {:induction false} OtherFieldsIff(u: seq<Byte>, at: nat, m: MultiSignature)
    ensures DecodeFrom(u, at, m) == Ok(m.(unrecognized := m.unrecognized + u)) <==> OtherFields(u, at)
    decreases |u|
  {
    hide NextRecord;
    if u == [] {
      assert m.unrecognized + u == m.unrecognized;
    } else if NextRecord(u, at).Ok? {
      var rec := NextRecord(u, at).value;
      var m' := Append(m, u, rec);
      if rec.Signature? {
        if DecodeFrom(u, at, m).Ok? {
          DecodeGrows(u[rec.n..], at + rec.n, m');
        }
      } else {
        OtherFieldsIff(u[rec.n..], at + rec.n, m');
        assert u == u[..rec.n] + u[rec.n..];
        assert m'.unrecognized + u[rec.n..] == m.unrecognized + u;
      }
    }
  }

  /** The decoder keeps n bytes unread exactly when they are a complete record of another field. */
  lemma OtherIff(data: seq<Byte>, at: nat, n: nat)
    requires at + |data| < I64
    ensures NextRecord(data, at) == Ok(Other(n)) <==> n <= |data| && exists f :: G.IsOther(f) && G.Bytes(f) == data[..n]
  {
    hide ReadSpan, Skip, Integer, G.WellFormed, G.Bytes;
    if NextRecord(data, at) == Ok(Other(n)) {
      assert Skip(data) == Ok(n);
      var f := G.SkippedIsField(data, n);
      assert data == G.Bytes(f) + data[n..];
      G.TagInFront(f, data[n..]);
      assert G.IsOther(f);
    }
    if n <= |data| && exists f :: G.IsOther(f) && G.Bytes(f) == data[..n] {
      var f :| G.IsOther(f) && G.Bytes(f) == data[..n];
      assert data == G.Bytes(f) + data[n..];
      G.TagInFront(f, data[n..]);
      G.FieldNotEmpty(f);
      G.SkipIff(data, n);
    }
  }

  /** The bytes that the decoder keeps are complete records of other fields, one after the other, and no others. */
  lemma {:induction false} OtherRecordsIff(u: seq<Byte>, at: nat)
    requires at + |u| < I64
    ensures OtherFields(u, at) <==> G.OtherRecords(u)
    decreases |u|
  {
    hide NextRecord, G.IsOther, G.Bytes;
    if OtherFields(u, at) {
      if u == [] {
        assert G.AllOther(G.Nil) && G.AllBytes(G.Nil) == u;
      } else {
        var n := NextRecord(u, at).value.n;
        OtherIff(u, at, n);
        var f :| G.IsOther(f) && G.Bytes(f) == u[..n];
        OtherRecordsIff(u[n..], at + n);
        var fs :| G.AllOther(fs) && G.AllBytes(fs) == u[n..];
        assert u == u[..n] + u[n..];
        assert G.AllOther(G.Cons(f, fs)) && G.AllBytes(G.Cons(f, fs)) == u;
      }
    }
    if G.OtherRecords(u) && u != [] {
      var fs :| G.AllOther(fs) && G.AllBytes(fs) == u;
      var f, rest := fs.head, fs.tail;
      var n := |G.Bytes(f)|;
      assert u[..n] == G.Bytes(f) && u[n..] == G.AllBytes(rest);
      OtherIff(u, at, n);
      OtherRecordsIff(u[n..], at + n);
    }
  }

  /**
   Marshalling and unmarshalling gives a message back exactly when its unrecognized bytes are complete
   records of fields other than the signatures; in particular always when there are none.
   */
  lemma RoundTripIff(m: MultiSignature)
    requires |Encode(m)| < I64
    ensures Decode(Encode(m)) == Ok(m) <==> G.OtherRecords(m.unrecognized)
  {
    hide DecodeFrom, OtherFields, EncodeSignatures, G.OtherRecords;
    var empty := MultiSignature([], []);
    var m' := empty.(signatures := empty.signatures + m.signatures);
    SignaturesReadBack(m.signatures, m.unrecognized, 0, empty);
    assert empty.signatures + m.signatures == m.signatures;
    OtherFieldsIff(m.unrecognized, |EncodeSignatures(m.signatures)|, m');
    OtherRecordsIff(m.unrecognized, |EncodeSignatures(m.signatures)|);
    assert [] + m.unrecognized == m.unrecognized;
  }

  /** A field-1 record hidden in the unrecognized bytes comes back as a signature. */
  lemma HiddenSignature()
    ensures var m := MultiSignature([], [SIGNATURES_TAG, 1, 7]);
            Decode(Encode(m)) == Ok(MultiSignature([[7]], []))
  {
    var s: seq<Byte> := [7];
    assert VarintBytes(1) == [1];
    assert Delimited(s) == [1, 7];
    var m, empty := MultiSignature([], [SIGNATURES_TAG, 1, 7]), MultiSignature([], []);
    var data := EncodeSignatures([s]) + [];
    assert EncodeSignatures([s][1..]) == [];
    assert Encode(m) == data;
    SignaturesReadBack([s], [], 0, empty);
    assert empty.signatures + [s] == [s];
  }

  // ------------------------------------------------------- CompactBitArray

  const EXTRA_TAG: Byte := 0x08
  const ELEMS_TAG: Byte := 0x12
  const U32: int := 0x1_0000_0000

  datatype BitArrayMessage = BitArrayMessage(extraBitsStored: nat, elems: seq<Byte>)

  function EncodeExtra(extra: nat): seq<Byte> {
    if extra == 0 then [] else [EXTRA_TAG] + VarintBytes(extra)
  }

  function EncodeElems(elems: seq<Byte>): seq<Byte> {
    if elems == [] then [] else [ELEMS_TAG] + Delimited(elems)
  }

  function EncodeBits(m: BitArrayMessage): seq<Byte> {
    EncodeExtra(m.extraBitsStored) + EncodeElems(m.elems)
  }

  method SizeBits(m: BitArrayMessage) returns (n: nat)
    ensures n == |EncodeBits(m)|
  {
    hide Sov, VarintBytes;
    n := 0;
    if m.extraBitsStored != 0 {
      SovIsLength(m.extraBitsStored);
      n := n + 1 + Sov(m.extraBitsStored);
    }
    var l := |m.elems|;
    if l > 0 {
      SovIsLength(l);
      n := n + 1 + l + Sov(l);
    }
  }

  method MarshalBits(m: BitArrayMessage) returns (bytes: seq<Byte>)
    ensures bytes == EncodeBits(m)
  {
    hide Sov, VarintBytes;
    var size := SizeBits(m);
    var dst := new Byte[size](_ => 0);
    var i := size;
    if |m.elems| > 0 {
      i := WriteDelimited(dst, i, ELEMS_TAG, m.elems);
    }
    assert dst[i..] == EncodeElems(m.elems);
    if m.extraBitsStored != 0 {
      SovIsLength(m.extraBitsStored);
      ghost var tail := dst[i..];
      var j := EncodeVarint(dst, i, m.extraBitsStored);
      dst[j - 1] := EXTRA_TAG;
      assert dst[i..] == tail && dst[j..i] == VarintBytes(m.extraBitsStored);
      SplitSlice(dst, j, i);
      SplitSlice(dst, 0, j);
      assert dst[0..] == dst[..] && dst[0..j] == [EXTRA_TAG];
    }
    bytes := dst[..];
  }

  /** What the decoder finds at the front of the bytes; a field it does not know is dropped. */
  datatype BitRecord = Extra(n: nat, extra: nat) | Elems(n: nat, bytes: seq<Byte>) | Unknown(n: nat)

  function NextBitRecord(data: seq<Byte>, at: nat): (r: Result<BitRecord>)
    ensures r.Ok? ==> 0 < r.value.n <= |data|
  {
    var tag :- ReadTag(data);
    var body := data[tag.n..];
    if tag.field == 1 then
      if tag.wireType != 0 then Err(WrongWireType)
      else
        var x :- Integer(body);
        Ok(Extra(tag.n + x.n, x.v % U32))
    else if tag.field == 2 then
      if tag.wireType != 2 then Err(WrongWireType)
      else
        var span :- ReadSpan(body, at + tag.n);
        Ok(Elems(tag.n + span.end, body[span.start..span.end]))
    else
      var n :- SkipField(data, at);
      Ok(Unknown(n))
  }

  method NextBitRecordAt(data: array<Byte>, i: nat) returns (r: Result<BitRecord>)
    requires i <= data.Length
    ensures r == NextBitRecord(data[i..], i)
  {
    hide ReadTag, ReadSpan, SkipField, Integer;
    var tag := ReadTagAt(data, i);
    if tag.Err? { return Err(tag.error); }
    var j := i + tag.value.n;
    assert data[j..] == data[i..][tag.value.n..];
    if tag.value.field == 1 {
      if tag.value.wireType != 0 { return Err(WrongWireType); }
      var x := IntegerAt(data, j);
      if x.Err? { return Err(x.error); }
      return Ok(Extra(tag.value.n + x.value.n, x.value.v % U32));
    } else if tag.value.field == 2 {
      if tag.value.wireType != 2 { return Err(WrongWireType); }
      var span := ReadSpanAt(data, j);
      if span.Err? { return Err(span.error); }
      assert data[j + span.value.start..j + span.value.end] == data[j..][span.value.start..span.value.end];
      return Ok(Elems(tag.value.n + span.value.end, data[j + span.value.start..j + span.value.end]));
    }
    var n := SkipFieldAt(data, i);
    if n.Err? { return Err(n.error); }
    return Ok(Unknown(n.value));
  }

  function Set(m: BitArrayMessage, rec: BitRecord): BitArrayMessage {
    match rec
    case Extra(_, extra) => m.(extraBitsStored := extra)
    case Elems(_, bytes) => m.(elems := bytes)
    case Unknown(_) => m
  }

  function DecodeBitsFrom(data: seq<Byte>, at: nat, m: BitArrayMessage): Result<BitArrayMessage>
    decreases |data|
  {
    if data == [] then Ok(m)
    else
      var rec :- NextBitRecord(data, at);
      DecodeBitsFrom(data[rec.n..], at + rec.n, Set(m, rec))
  }

  function DecodeBits(data: seq<Byte>): Result<BitArrayMessage> {
    DecodeBitsFrom(data, 0, BitArrayMessage(0, []))
  }

  method UnmarshalBits(data: array<Byte>) returns (r: Result<BitArrayMessage>)
    ensures r == DecodeBits(data[..])
  {
    hide NextBitRecord, Set;
    var i, m := 0, BitArrayMessage(0, []);
    assert data[0..] == data[..];
    while i < data.Length
      invariant 0 <= i <= data.Length
      invariant DecodeBitsFrom(data[i..], i, m) == DecodeBits(data[..])
    {
      var rec := NextBitRecordAt(data, i);
      if rec.Err? { return Err(rec.error); }
      assert data[i + rec.value.n..] == data[i..][rec.value.n..];
      m := Set(m, rec.value);
      i := i + rec.value.n;
    }
    assert data[i..] == [];
    return Ok(m);
  }

  lemma ExtraReadsBack(extra: nat, rest: seq<Byte>)
    requires 0 < extra < U32
    ensures NextBitRecord(EncodeExtra(extra) + rest, 0) == Ok(Extra(|EncodeExtra(extra)|, extra))
  {
    var v := VarintBytes(extra);
    var body := v + rest;
    ReadVarintBack(extra, rest);
    assert Integer(body) == Ok(Token(extra, |v|));
    hide ReadTag, ReadSpan, SkipField, VarintBytes, Integer;
    assert EncodeExtra(extra) + rest == [EXTRA_TAG] + body;
    assert ([EXTRA_TAG] + body)[1..] == body;
    TagReadsBack(EXTRA_TAG, body);
  }

  lemma ElemsReadBack(elems: seq<Byte>, at: nat)
    requires elems != [] && at + |EncodeElems(elems)| < I64
    ensures NextBitRecord(EncodeElems(elems), at) == Ok(Elems(|EncodeElems(elems)|, elems))
  {
    var body := Delimited(elems);
    DelimitedLength(elems);
    hide ReadTag, ReadSpan, SkipField, VarintBytes, Delimited, Integer;
    assert body + [] == body && ([ELEMS_TAG] + body)[1..] == body;
    TagReadsBack(ELEMS_TAG, body);
    DelimitedReadsBack(elems, [], at + 1);
  }

  lemma {:induction false} ElemsDecode(elems: seq<Byte>, at: nat, extra: nat)
    requires at + |EncodeElems(elems)| < I64
    ensures DecodeBitsFrom(EncodeElems(elems), at, BitArrayMessage(extra, [])) == Ok(BitArrayMessage(extra, elems))
  {
    if elems != [] {
      ElemsReadBack(elems, at);
      hide NextBitRecord, EncodeElems;
      var data := EncodeElems(elems);
      assert data[|data|..] == [];
    }
  }

  /** Every bit-array message survives marshalling and unmarshalling. */
  lemma BitsRoundTrip(m: BitArrayMessage)
    requires m.extraBitsStored < U32 && |EncodeBits(m)| < I64
    ensures DecodeBits(EncodeBits(m)) == Ok(m)
  {
    var x, e := EncodeExtra(m.extraBitsStored), EncodeElems(m.elems);
    ElemsDecode(m.elems, |x|, m.extraBitsStored);
    if m.extraBitsStored == 0 {
      assert x + e == e;
    } else {
      ExtraReadsBack(m.extraBitsStored, e);
      hide NextBitRecord, EncodeElems, EncodeExtra;
      assert (x + e)[|x|..] == e;
    }
  }
}
