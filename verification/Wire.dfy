/**
 The wire format shared by the messages of crypto/types/multisig.pb.go (Protocol Buffers Encoding,
 "Message Structure"): tags, length-delimited payloads, and the skipping of unknown fields. Every
 reader works on the bytes that are left; `at` is the absolute index they start at, which only
 matters for the 64-bit overflow checks of `Unmarshal` and `skipMultisig`.
 */
module Wire {
  import opened Arith
  import opened Varint

  datatype Error =
    | IntOverflow | UnexpectedEOF | InvalidLength | UnexpectedEndOfGroup
    | EndGroup | IllegalTag | WrongWireType | IllegalWireType

  datatype Result<+T> = Ok(value: T) | Err(error: Error) {
    predicate IsFailure() { Err? }
    function PropagateFailure<U>(): Result<U>
      requires Err?
    {
      Err(error)
    }
    function Extract(): T
      requires Ok?
    {
      value
    }
  }

  /** A value and the number of bytes it took. */
  datatype Token = Token(v: nat, n: nat)

  function Integer(data: seq<Byte>): (r: Result<Token>)
    ensures r.Ok? ==> 0 < r.value.n <= |data| && r.value.v < U64
  {
    match ReadVarint(data)
    case Value(v, n) => Ok(Token(v, n))
    case Truncated => Err(UnexpectedEOF)
    case TooLong => Err(IntOverflow)
  }

  method IntegerAt(data: array<Byte>, i: nat) returns (r: Result<Token>)
    requires i <= data.Length
    ensures r == Integer(data[i..])
  {
    var v := ReadVarintAt(data, i);
    r := match v
      case Value(v, n) => Ok(Token(v, n))
      case Truncated => Err(UnexpectedEOF)
      case TooLong => Err(IntOverflow);
  }

  /** int32(x): the low 32 bits as a signed number. */
  function Int32(x: nat): int {
    var w := x % 0x1_0000_0000;
    if w < 0x8000_0000 then w else w - 0x1_0000_0000
  }

  datatype Tag = Tag(field: int, wireType: nat, n: nat)

  /** A field's tag; a group end or a field number that is not positive is refused. */
  function ReadTag(data: seq<Byte>): (r: Result<Tag>)
    ensures r.Ok? ==> 0 < r.value.n <= |data| && r.value.field > 0
  {
    var w :- Integer(data);
    var field, wireType := Int32(w.v / 8), w.v % 8;
    if wireType == 4 then Err(EndGroup)
    else if field <= 0 then Err(IllegalTag)
    else Ok(Tag(field, wireType, w.n))
  }

  method ReadTagAt(data: array<Byte>, i: nat) returns (r: Result<Tag>)
    requires i <= data.Length
    ensures r == ReadTag(data[i..])
  {
    var w := IntegerAt(data, i);
    if w.Err? { return Err(w.error); }
    var field, wireType := Int32(w.value.v / 8), w.value.v % 8;
    if wireType == 4 { return Err(EndGroup); }
    if field <= 0 { return Err(IllegalTag); }
    return Ok(Tag(field, wireType, w.value.n));
  }

  /** A length prefix and its payload: where the payload starts and ends. */
  datatype Span = Span(start: nat, end: nat)

  function ReadSpan(data: seq<Byte>, at: nat): (r: Result<Span>)
    ensures r.Ok? ==> 0 < r.value.start <= r.value.end <= |data|
  {
    var len :- Integer(data);
    if len.v >= I64 || at + len.n + len.v >= I64 then Err(InvalidLength)
    else if len.n + len.v > |data| then Err(UnexpectedEOF)
    else Ok(Span(len.n, len.n + len.v))
  }

  method ReadSpanAt(data: array<Byte>, i: nat) returns (r: Result<Span>)
    requires i <= data.Length
    ensures r == ReadSpan(data[i..], i)
  {
    var len := IntegerAt(data, i);
    if len.Err? { return Err(len.error); }
    if len.value.v >= I64 { return Err(InvalidLength); }
    var postIndex := i + len.value.n + len.value.v;
    if postIndex >= I64 { return Err(InvalidLength); }
    if postIndex > data.Length { return Err(UnexpectedEOF); }
    return Ok(Span(len.value.n, len.value.n + len.value.v));
  }

  // --------------------------------------------------------- skipping fields

  datatype Hop = Hop(n: nat, depth: nat)

  /** One tag and its payload: how far the index moves and the group depth after it. The move may pass the end. */
  function SkipOne(data: seq<Byte>, depth: nat): (r: Result<Hop>)
    ensures r.Ok? ==> r.value.n > 0
  {
    var w :- Integer(data);
    var rest := data[w.n..];
    match w.v % 8
    case 0 => var p :- Integer(rest); Ok(Hop(w.n + p.n, depth))
    case 1 => Ok(Hop(w.n + 8, depth))
    case 2 =>
      var len :- Integer(rest);
      if len.v >= I64 then Err(InvalidLength) else Ok(Hop(w.n + len.n + len.v, depth))
    case 3 => Ok(Hop(w.n, depth + 1))
    case 4 => if depth == 0 then Err(UnexpectedEndOfGroup) else Ok(Hop(w.n, depth - 1))
    case 5 => Ok(Hop(w.n + 4, depth))
    case _ => Err(IllegalWireType)
  }

  /** `skipMultisig` from index `at` of its slice: the index after the whole field, groups included. */
  function SkipFrom(data: seq<Byte>, at: nat, depth: nat): (r: Result<nat>)
    ensures r.Ok? ==> r.value > at
    decreases |data|
  {
    if data == [] then Err(UnexpectedEOF)
    else
      var hop :- SkipOne(data, depth);
      if at + hop.n >= I64 then Err(InvalidLength)
      else if hop.depth == 0 then Ok(at + hop.n)
      else if hop.n >= |data| then Err(UnexpectedEOF)
      else SkipFrom(data[hop.n..], at + hop.n, hop.depth)
  }

  function Skip(data: seq<Byte>): (r: Result<nat>)
    ensures r.Ok? ==> r.value > 0
  {
    SkipFrom(data, 0, 0)
  }

  method SkipOneAt(data: array<Byte>, i: nat, depth: nat) returns (r: Result<Hop>)
    requires i <= data.Length
    ensures r == SkipOne(data[i..], depth)
  {
    hide Integer;
    var w := IntegerAt(data, i);
    if w.Err? { return Err(w.error); }
    assert data[i..][w.value.n..] == data[i + w.value.n..];
    var wireType := w.value.v % 8;
    if wireType == 0 {
      var p := IntegerAt(data, i + w.value.n);
      if p.Err? { return Err(p.error); }
      return Ok(Hop(w.value.n + p.value.n, depth));
    } else if wireType == 1 {
      return Ok(Hop(w.value.n + 8, depth));
    } else if wireType == 2 {
      var len := IntegerAt(data, i + w.value.n);
      if len.Err? { return Err(len.error); }
      if len.value.v >= I64 { return Err(InvalidLength); }
      return Ok(Hop(w.value.n + len.value.n + len.value.v, depth));
    } else if wireType == 3 {
      return Ok(Hop(w.value.n, depth + 1));
    } else if wireType == 4 {
      if depth == 0 { return Err(UnexpectedEndOfGroup); }
      return Ok(Hop(w.value.n, depth - 1));
    } else if wireType == 5 {
      return Ok(Hop(w.value.n + 4, depth));
    }
    return Err(IllegalWireType);
  }

  /** `skipMultisig` on the slice data[start..]; no read leaves the buffer, whatever its bytes. */
  method SkipAt(data: array<Byte>, start: nat) returns (r: Result<nat>)
    requires start <= data.Length
    ensures r == Skip(data[start..])
  {
    hide SkipOne;
    var i, depth := start, 0;
    while i < data.Length
      invariant start <= i <= data.Length
      invariant SkipFrom(data[i..], i - start, depth) == Skip(data[start..])
      decreases data.Length - i
    {
      var hop := SkipOneAt(data, i, depth);
      if hop.Err? { return Err(hop.error); }
      ghost var left := data[i..];
      i, depth := i + hop.value.n, hop.value.depth;
      if i - start >= I64 { return Err(InvalidLength); }
      if depth == 0 { return Ok(i - start); }
      if i >= data.Length { return Err(UnexpectedEOF); }
      assert data[i..] == left[hop.value.n..];
    }
    return Err(UnexpectedEOF);
  }

  /** The bounds a message decoder checks on a skipped field that starts at index `at`. */
  function SkipField(data: seq<Byte>, at: nat): (r: Result<nat>)
    ensures r.Ok? ==> 0 < r.value <= |data|
  {
    var n :- Skip(data);
    if at + n >= I64 then Err(InvalidLength)
    else if n > |data| then Err(UnexpectedEOF)
    else Ok(n)
  }

  method SkipFieldAt(data: array<Byte>, i: nat) returns (r: Result<nat>)
    requires i <= data.Length
    ensures r == SkipField(data[i..], i)
  {
    var n := SkipAt(data, i);
    if n.Err? { return Err(n.error); }
    if i + n.value >= I64 { return Err(InvalidLength); }
    if i + n.value > data.Length { return Err(UnexpectedEOF); }
    return Ok(n.value);
  }

  // ------------------------------------------------------- what writers write

  lemma TagReadsBack(tag: Byte, rest: seq<Byte>)
    requires 8 <= tag < 128 && tag % 8 != 4
    ensures ReadTag([tag] + rest) == Ok(Tag(tag / 8, tag % 8, 1))
  {
    assert VarintBytes(tag) == [tag];
    ReadVarintBack(tag, rest);
  }

  /** A length-delimited payload as the marshallers write it. */
  function Delimited(payload: seq<Byte>): seq<Byte> { VarintBytes(|payload|) + payload }

  lemma DelimitedReadsBack(payload: seq<Byte>, rest: seq<Byte>, at: nat)
    requires at + |Delimited(payload)| < I64
    ensures var data := Delimited(payload) + rest;
            var n := |VarintBytes(|payload|)|;
            ReadSpan(data, at) == Ok(Span(n, n + |payload|)) && data[n..n + |payload|] == payload
  {
    var head := VarintBytes(|payload|);
    assert Delimited(payload) + rest == head + (payload + rest);
    ReadVarintBack(|payload|, payload + rest);
  }

  /** Go's copy(dst[at:], src) for a source that fits. */
  method CopyBytes(dst: array<Byte>, at: nat, src: seq<Byte>)
    requires at + |src| <= dst.Length
    modifies dst
    ensures dst[at..at + |src|] == src
    ensures dst[..at] == old(dst[..at]) && dst[at + |src|..] == old(dst[at + |src|..])
  {
    for i := 0 to |src|
      invariant forall k :: 0 <= k < i ==> dst[at + k] == src[k]
      invariant forall k :: 0 <= k < at ==> dst[k] == old(dst[k])
      invariant forall k :: at + |src| <= k < dst.Length ==> dst[k] == old(dst[k])
    {
      dst[at + i] := src[i];
    }
  }

  /** Write a tag and a length-delimited payload so that they end at index i. */
  method WriteDelimited(dst: array<Byte>, i: nat, tag: Byte, payload: seq<Byte>) returns (start: nat)
    requires 1 + |Delimited(payload)| <= i <= dst.Length
    modifies dst
    ensures start == i - 1 - |Delimited(payload)|
    ensures dst[start..i] == [tag] + Delimited(payload)
    ensures dst[..start] == old(dst[..start]) && dst[i..] == old(dst[i..])
  {
    SovIsLength(|payload|);
    hide VarintBytes, Sov;
    var p := i - |payload|;
    ghost var before := dst[..];
    CopyBytes(dst, p, payload);
    assert dst[..p] == before[..p] && dst[i..] == before[i..] && dst[p..i] == payload;
    ghost var tail := dst[p..];
    var q := EncodeVarint(dst, p, |payload|);
    assert dst[p..] == tail && dst[..q] == before[..p][..q] == before[..q];
    start := q - 1;
    dst[start] := tag;
    assert dst[..start] == before[..start];
    assert dst[i..] == tail[i - p..] && dst[p..i] == tail[..i - p] == payload;
    assert dst[q..i] == dst[q..p] + dst[p..i];
    assert dst[start..i] == [tag] + dst[q..i];
  }
}
