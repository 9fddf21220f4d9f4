/**
 Base 128 varints (Protocol Buffers Encoding, "Base 128 Varints") as crypto/types/multisig.pb.go
 writes and reads them. Bytes are integers below 256; shifting right by 7 is division by 128,
 and or-ing in seven fresh bits is addition.
 */
module Varint {
  import opened Arith

  type Byte = b: int | 0 <= b < 256

  const U64: int := 0x1_0000_0000_0000_0000
  const I64: int := 0x8000_0000_0000_0000

  /** The varint of v: seven bits a byte, least significant first, the top bit set on all but the last. */
  function VarintBytes(v: nat): (s: seq<Byte>)
    ensures |s| > 0
  {
    if v < 128 then [v] else [v % 128 + 128] + VarintBytes(v / 128)
  }

  /** `sovMultisig`: the length computed from the bit length of v | 1. */
  function Sov(v: nat): nat {
    (BitLen(v + 1 - v % 2) + 6) / 7
  }

  lemma BitLenOr1(v: nat)
    ensures BitLen(v + 1 - v % 2) == if v == 0 then 1 else BitLen(v)
  {
    var w := v + 1 - v % 2;
    assert w / 2 == v / 2;
    assert BitLen(w) == 1 + BitLen(w / 2);
    if v > 0 {
      assert BitLen(v) == 1 + BitLen(v / 2);
    }
  }

  lemma BitLenHalf(v: nat)
    requires v > 0
    ensures BitLen(v) == 1 + BitLen(v / 2)
  {
  }

  lemma BitLenShift7(v: nat)
    requires v >= 128
    ensures BitLen(v) == 7 + BitLen(v / 128)
  {
    hide BitLen;
    var a := v / 2;
    var b := a / 2;
    var c := b / 2;
    var d := c / 2;
    var e := d / 2;
    var f := e / 2;
    assert f / 2 == v / 128;
    BitLenHalf(v);
    BitLenHalf(a);
    BitLenHalf(b);
    BitLenHalf(c);
    BitLenHalf(d);
    BitLenHalf(e);
    BitLenHalf(f);
  }

  lemma SovSmall(v: nat)
    requires v < 128
    ensures Sov(v) == 1
  {
    assert Pow(2, 7) == 128;
    BitLenOr1(v);
    BitLenMeans(v, 7);
    BitLenMeans(v, 0);
  }

  /** The computed size is the number of bytes the encoding loop writes. */
  lemma {:induction false} SovIsLength(v: nat)
    ensures Sov(v) == |VarintBytes(v)|
  {
    hide BitLen;
    if v < 128 {
      SovSmall(v);
    } else {
      BitLenOr1(v);
      BitLenOr1(v / 128);
      BitLenShift7(v);
      SovIsLength(v / 128);
    }
  }

  /** `encodeVarintMultisig`: the varint is placed so that it ends at offset. */
  method EncodeVarint(a: array<Byte>, offset: nat, v: nat) returns (base: nat)
    requires Sov(v) <= offset <= a.Length
    modifies a
    ensures base == offset - |VarintBytes(v)|
    ensures a[base..offset] == VarintBytes(v)
    ensures a[..base] == old(a[..base]) && a[offset..] == old(a[offset..])
  {
    SovIsLength(v);
    base := offset - Sov(v);
    hide VarintBytes, Sov;
    var at, w := base, v;
    assert a[base..at] + VarintBytes(w) == VarintBytes(v);
    while w >= 128
      invariant base <= at && at + |VarintBytes(w)| == offset
      invariant a[base..at] + VarintBytes(w) == VarintBytes(v)
      invariant a[..base] == old(a[..base]) && a[offset..] == old(a[offset..])
      decreases w
    {
      ghost var before := a[base..at];
      VarintUnfolds(w, before);
      a[at] := w % 128 + 128;
      assert a[base..at + 1] == before + [w % 128 + 128];
      w := w / 128;
      at := at + 1;
    }
    ghost var before := a[base..at];
    VarintUnfolds(w, before);
    a[at] := w;
    assert a[base..offset] == before + [w];
  }

  lemma VarintUnfolds(w: nat, before: seq<Byte>)
    ensures w < 128 ==> VarintBytes(w) == [w]
    ensures w >= 128 ==>
              && |VarintBytes(w)| == 1 + |VarintBytes(w / 128)|
              && before + VarintBytes(w) == before + [w % 128 + 128] + VarintBytes(w / 128)
  {
  }

  // ---------------------------------------------------------------- reading

  datatype Read = Value(v: nat, n: nat) | Truncated | TooLong

  /** Seven bits of a byte, shifted into place and or-ed into a 64-bit accumulator. */
  function Accumulate(acc: nat, b: Byte, unit: nat): (r: nat)
    ensures r < U64
  {
    (acc + b % 128 * unit) % U64
  }

  /** Read a varint off the front of data, k bytes into it: unit is 128^k and acc the value so far. */
  function ReadFrom(data: seq<Byte>, k: nat, unit: nat, acc: nat): (r: Read)
    ensures r.Value? ==> k < r.n <= k + |data| && r.v < U64
    decreases 10 - k
  {
    if k >= 10 then TooLong
    else if data == [] then Truncated
    else
      var sum := Accumulate(acc, data[0], unit);
      if data[0] < 128 then Value(sum, k + 1) else ReadFrom(data[1..], k + 1, 128 * unit, sum)
  }

  function ReadVarint(data: seq<Byte>): (r: Read)
    ensures r.Value? ==> 0 < r.n <= |data| && r.v < U64
  {
    ReadFrom(data, 0, 1, 0)
  }

  /** The reading loop on an index into a buffer. */
  method ReadVarintAt(data: array<Byte>, start: nat) returns (r: Read)
    requires start <= data.Length
    ensures r == ReadVarint(data[start..])
  {
    var i, k, acc, unit := start, 0, 0, 1;
    while true
      invariant start <= i <= data.Length && i == start + k && k <= 10 && unit >= 0 && acc >= 0
      invariant ReadFrom(data[i..], k, unit, acc) == ReadVarint(data[start..])
      decreases 10 - k
    {
      if k == 10 { return TooLong; }
      if i >= data.Length { return Truncated; }
      var b := data[i];
      assert data[i..][0] == b && data[i..][1..] == data[i + 1..];
      acc := Accumulate(acc, b, unit);
      if b < 128 { return Value(acc, k + 1); }
      i, k, unit := i + 1, k + 1, 128 * unit;
    }
  }

  lemma TenGroupsTooMany(v: nat, k: nat)
    requires v >= 1 && v * Pow(128, k) < U64
    ensures k < 10
  {
    if k >= 10 {
      PowAdds(128, 10, k - 10);
      PowPositive(128, k - 10);
      assert Pow(128, 10) == 0x40_0000_0000_0000_0000 by { PowAdds(128, 5, 5); }
      MulMono(1, Pow(128, k - 10), Pow(128, 10));
      MulMono(1, v, Pow(128, k));
    }
  }

  /** With v still to come in units of unit, the accumulator will reach total. */
  ghost predicate Reaches(acc: nat, v: nat, unit: nat, total: nat) { total == acc + v * unit }

  lemma {:induction false} ReadBack(v: nat, rest: seq<Byte>, k: nat, unit: nat, acc: nat, total: nat)
    requires (k == 0 || v >= 1) && unit == Pow(128, k) && Reaches(acc, v, unit, total) && total < U64
    ensures ReadFrom(VarintBytes(v) + rest, k, unit, acc) == Value(total, k + |VarintBytes(v)|)
    decreases v
  {
    if k > 0 { TenGroupsTooMany(v, k); }
    hide *;
    VarintHead(v, rest);
    ReadStep(VarintBytes(v) + rest, k, unit, acc);
    AccumulateReaches(acc, v, unit, total);
    if v >= 128 {
      NextPower(k);
      ReadBack(v / 128, rest, k + 1, 128 * unit, Accumulate(acc, v % 128 + 128, unit), total);
    }
  }

  lemma AccumulateReaches(acc: nat, v: nat, unit: nat, total: nat)
    requires Reaches(acc, v, unit, total) && total < U64
    ensures v < 128 ==> Accumulate(acc, v, unit) == total
    ensures v >= 128 ==> Reaches(Accumulate(acc, v % 128 + 128, unit), v / 128, 128 * unit, total)
  {
    var d, q := v % 128, v / 128;
    GroupSplit(v, d, q, unit);
    AccumulateIs(acc, if v < 128 then v else d + 128, unit, d);
  }

  lemma ReadStep(data: seq<Byte>, k: nat, unit: nat, acc: nat)
    requires k < 10 && data != []
    ensures var sum := Accumulate(acc, data[0], unit);
            ReadFrom(data, k, unit, acc) ==
              if data[0] < 128 then Value(sum, k + 1) else ReadFrom(data[1..], k + 1, 128 * unit, sum)
  {
  }

  lemma VarintHead(v: nat, rest: seq<Byte>)
    ensures (VarintBytes(v) + rest)[0] == if v < 128 then v else v % 128 + 128
    ensures v < 128 ==> |VarintBytes(v)| == 1
    ensures v >= 128 ==> |VarintBytes(v)| == 1 + |VarintBytes(v / 128)|
    ensures v >= 128 ==> (VarintBytes(v) + rest)[1..] == VarintBytes(v / 128) + rest
  {
    if v >= 128 {
      ConsConcat(v % 128 + 128, VarintBytes(v / 128), rest);
    }
  }

  lemma ConsConcat(h: Byte, t: seq<Byte>, r: seq<Byte>)
    ensures (([h] + t) + r)[1..] == t + r
  {
  }

  lemma AccumulateIs(acc: nat, b: Byte, unit: nat, d: nat)
    requires b % 128 == d && acc + d * unit < U64
    ensures Accumulate(acc, b, unit) == acc + d * unit
  {
    assert d * unit >= 0;
  }

  lemma NextPower(k: nat)
    ensures Pow(128, k + 1) == 128 * Pow(128, k)
  {
  }

  lemma GroupSplit(v: nat, d: nat, q: nat, p: nat)
    requires v == q * 128 + d
    ensures v * p == d * p + q * (128 * p) && q * (128 * p) >= 0 && d * p >= 0
  {
  }

  /** Reading a written varint gives the value back and consumes exactly its bytes. */
  lemma ReadVarintBack(v: nat, rest: seq<Byte>)
    requires v < U64
    ensures ReadVarint(VarintBytes(v) + rest) == Value(v, |VarintBytes(v)|)
  {
    assert Pow(128, 0) == 1;
    ReadBack(v, rest, 0, 1, 0, v);
  }
}
