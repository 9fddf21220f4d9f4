/**
 The compact bit array (crypto/types/compact_bit_array.go): bits packed into bytes, most
 significant first, with its own binary encoding and JSON form.
 */
module BitArrays {
  import opened Arith
  import opened Varint
  import Multisig
  import Wire

  // -------------------------------------------------------------- bits of bytes

  /** uint8(1) << (7 - k) */
  function Mask(k: nat): bv8
    requires k < 8
  {
    match k
    case 0 => 128 case 1 => 64 case 2 => 32 case 3 => 16 case 4 => 8 case 5 => 4 case 6 => 2 case 7 => 1
  }

  predicate Bit(b: bv8, k: nat)
    requires k < 8
  {
    b & Mask(k) != 0
  }

  lemma BitTest(b: bv8, k: nat)
    requires k < 8
    ensures b & Mask(k) > 0 <==> Bit(b, k)
  {
    hide Mask;
  }

  function WithBit(b: bv8, k: nat, v: bool): bv8
    requires k < 8
  {
    if v then b | Mask(k) else b & !Mask(k)
  }

  lemma WithBitMeans(b: bv8, k: nat, v: bool, j: nat)
    requires k < 8 && j < 8
    ensures Bit(WithBit(b, k, v), j) == if j == k then v else Bit(b, j)
  {
  }

  /** A byte is determined by its eight bits. */
  lemma BitsDetermineByte(b: bv8, c: bv8)
    requires forall k :: 0 <= k < 8 ==> Bit(b, k) == Bit(c, k)
    ensures b == c
  {
    assert Bit(b, 0) == Bit(c, 0) && Bit(b, 1) == Bit(c, 1) && Bit(b, 2) == Bit(c, 2) && Bit(b, 3) == Bit(c, 3);
    assert Bit(b, 4) == Bit(c, 4) && Bit(b, 5) == Bit(c, 5) && Bit(b, 6) == Bit(c, 6) && Bit(b, 7) == Bit(c, 7);
  }

  predicate BitAt(elems: seq<bv8>, i: nat)
    requires i < 8 * |elems|
  {
    Bit(elems[i / 8], i % 8)
  }

  /** The first n bits of a byte sequence. */
  function BitsOf(elems: seq<bv8>, n: nat): (s: seq<bool>)
    requires n <= 8 * |elems|
    ensures |s| == n
  {
    seq(n, i requires 0 <= i < n => BitAt(elems, i))
  }

  function SetBit(elems: seq<bv8>, i: nat, v: bool): (r: seq<bv8>)
    requires i < 8 * |elems|
    ensures |r| == |elems|
  {
    elems[i / 8 := WithBit(elems[i / 8], i % 8, v)]
  }

  lemma SetBitAt(elems: seq<bv8>, i: nat, v: bool, j: nat)
    requires i < 8 * |elems| && j < 8 * |elems|
    ensures BitAt(SetBit(elems, i, v), j) == if j == i then v else BitAt(elems, j)
  {
    hide WithBit, Bit;
    if j / 8 == i / 8 {
      WithBitMeans(elems[i / 8], i % 8, v, j % 8);
    }
  }

  /** Setting a bit changes that bit and no other. */
  lemma SetBitMeans(elems: seq<bv8>, n: nat, i: nat, v: bool)
    requires i < n <= 8 * |elems|
    ensures BitsOf(SetBit(elems, i, v), n) == BitsOf(elems, n)[i := v]
  {
    hide BitAt, SetBit;
    forall j | 0 <= j < n ensures BitsOf(SetBit(elems, i, v), n)[j] == BitsOf(elems, n)[i := v][j] {
      SetBitAt(elems, i, v, j);
    }
  }

  /** No bit is set from position n on. */
  ghost predicate Clean(elems: seq<bv8>, n: nat) {
    forall i :: n <= i < 8 * |elems| ==> !BitAt(elems, i)
  }

  lemma SetBitClean(elems: seq<bv8>, n: nat, i: nat, v: bool)
    requires i < n <= 8 * |elems|
    ensures Clean(elems, n) ==> Clean(SetBit(elems, i, v), n)
  {
    hide BitAt, SetBit;
    forall j | n <= j < 8 * |elems| ensures BitAt(SetBit(elems, i, v), j) == BitAt(elems, j) {
      SetBitAt(elems, i, v, j);
    }
  }

  /** Clean arrays of the same length are equal as soon as their bits are. */
  lemma CleanUnique(a: seq<bv8>, b: seq<bv8>, n: nat)
    requires |a| == |b| && n <= 8 * |a| && Clean(a, n) && Clean(b, n)
    requires BitsOf(a, n) == BitsOf(b, n)
    ensures a == b
  {
    hide Bit;
    forall x | 0 <= x < |a| ensures a[x] == b[x] {
      forall k | 0 <= k < 8 ensures Bit(a[x], k) == Bit(b[x], k) {
        var i := 8 * x + k;
        assert i / 8 == x && i % 8 == k;
        assert BitAt(a, i) == Bit(a[x], k) && BitAt(b, i) == Bit(b[x], k);
        if i < n {
          assert BitsOf(a, n)[i] == BitsOf(b, n)[i];
        }
      }
      BitsDetermineByte(a[x], b[x]);
    }
  }

  function CountTrue(bits: seq<bool>): nat {
    if bits == [] then 0 else CountTrue(bits[..|bits| - 1]) + if bits[|bits| - 1] then 1 else 0
  }

  // ------------------------------------------------------------------ the object

  /** The number of bits that a stored remainder and a byte count stand for. */
  function CountOf(extra: nat, bytes: nat): int {
    if extra == 0 then bytes * 8 else (bytes - 1) * 8 + extra
  }

  /** Indexing panics: the index is below the count, and its byte does not exist. */
  predicate IndexPanics(extra: nat, bytes: nat, i: int) {
    i < CountOf(extra, bytes) && (i < 0 || i / 8 >= bytes)
  }

  /** No natural index panics exactly when the stored remainder is at most eight. */
  lemma NoIndexPanicsIff(extra: nat, bytes: nat)
    ensures (forall i: nat :: !IndexPanics(extra, bytes, i)) <==> extra <= 8
  {
    if extra > 8 {
      assert IndexPanics(extra, bytes, 8 * bytes);
    }
  }

  /** Such a remainder can come off the wire: 100, without a byte, is decoded, and its first bit panics. */
  lemma DecodedArrayCanPanic()
    ensures var m := Multisig.BitArrayMessage(100, []);
            && Multisig.DecodeBits(Multisig.EncodeBits(m)) == Wire.Ok(m)
            && IndexPanics(m.extraBitsStored, |m.elems|, 0)
  {
    var m := Multisig.BitArrayMessage(100, []);
    assert VarintBytes(100) == [100];
    assert |Multisig.EncodeBits(m)| == 2;
    hide Multisig.DecodeBits, Multisig.EncodeBits;
    Multisig.BitsRoundTrip(m);
  }

  function Clamp(i: int, n: nat): (r: nat)
    ensures r <= n
  {
    if i < 0 then 0 else Min(i, n)
  }

  class CompactBitArray {
    var extraBitsStored: nat
    var elems: array<bv8>

    constructor (bits: int)
      requires bits > 0
      ensures fresh(elems) && extraBitsStored == bits % 8 && Count() == |Bits()| == bits
      ensures forall i :: 0 <= i < bits ==> !Bits()[i]
      ensures Clean(elems[..], bits)
    {
      extraBitsStored := bits % 8;
      elems := new bv8[(bits + 7) / 8](_ => 0);
      new;
      assert forall i :: 0 <= i < 8 * |elems[..]| ==> !BitAt(elems[..], i) by {
        forall i | 0 <= i < 8 * |elems[..]| ensures !BitAt(elems[..], i) {
          assert elems[..][i / 8] == 0;
        }
      }
    }

    function Count(): int
      reads this
    {
      CountOf(extraBitsStored, elems.Length)
    }

    predicate Panics(i: int)
      reads this
    {
      IndexPanics(extraBitsStored, elems.Length, i)
    }

    /** The bits that can be read: those below the count whose byte exists. */
    ghost function Bits(): seq<bool>
      reads this, elems
    {
      BitsOf(elems[..], Clamp(Count(), 8 * elems.Length))
    }

    method GetIndex(i: int) returns (r: Option<bool>)
      ensures r == if Panics(i) then None else Some(0 <= i < |Bits()| && Bits()[i])
    {
      hide Mask, Bit, CountOf;
      if i >= Count() { return Some(false); }
      if Panics(i) { return None; }
      BitTest(elems[i / 8], i % 8);
      assert BitAt(elems[..], i) == Bit(elems[i / 8], i % 8);
      return Some(elems[i / 8] & Mask(i % 8) > 0);
    }

    /** Beyond the end nothing happens and false is returned; otherwise exactly one bit is assigned. */
    method SetIndex(i: int, v: bool) returns (r: Option<bool>)
      modifies elems
      ensures Count() == old(Count())
      ensures r == if Panics(i) then None else Some(i < Count())
      ensures r == Some(true) ==> 0 <= i < old(|Bits()|) && Bits() == old(Bits())[i := v]
      ensures r != Some(true) ==> elems[..] == old(elems[..])
      ensures old(Clean(elems[..], |Bits()|)) ==> Clean(elems[..], |Bits()|)
    {
      hide BitAt, BitsOf, Clean, Mask, Bit;
      if i >= Count() { return Some(false); }
      if Panics(i) { return None; }
      hide SetBit;
      ghost var was, n := elems[..], Clamp(Count(), 8 * elems.Length);
      SetBitMeans(was, n, i, v);
      SetBitClean(was, n, i, v);
      Assign(i, v);
      return Some(true);
    }

    /** Sets or clears one bit of its byte. */
    method Assign(i: nat, v: bool)
      requires i < 8 * elems.Length
      modifies elems
      ensures elems[..] == SetBit(old(elems[..]), i, v)
    {
      hide Mask;
      if v {
        elems[i / 8] := elems[i / 8] | Mask(i % 8);
      } else {
        elems[i / 8] := elems[i / 8] & !Mask(i % 8);
      }
    }

    /** The true bits before an index; it panics when it has to read a bit whose byte does not exist. */
    method NumTrueBitsBefore(index: int) returns (n: Option<nat>)
      ensures n.None? <==> 8 * elems.Length < Min(index, Count())
      ensures n.Some? ==> n.value == CountTrue(Bits()[..Clamp(index, |Bits()|)])
    {
      hide BitsOf;
      var count, i := 0, 0;
      while i < index
        invariant 0 <= i && (i <= index || i == 0)
        invariant Min(i, Count()) <= 8 * elems.Length
        invariant count == CountTrue(Bits()[..Clamp(i, |Bits()|)])
        decreases index - i
      {
        var b := GetIndex(i);
        if b.None? { return None; }
        if b.value {
          count := count + 1;
        }
        if i < |Bits()| {
          assert Bits()[..i + 1][..i] == Bits()[..i];
        }
        i := i + 1;
      }
      return Some(count);
    }
  }

  /** `NewCompactBitArray`: nil for no bits. */
  method NewCompactBitArray(bits: int) returns (r: CompactBitArray?)
    ensures r == null <==> bits <= 0
    ensures r != null ==> fresh(r) && fresh(r.elems) && r.Count() == |r.Bits()| == bits && r.extraBitsStored < 8
    ensures r != null ==> (forall i :: 0 <= i < bits ==> !r.Bits()[i]) && Clean(r.elems[..], bits)
  {
    if bits <= 0 { return null; }
    r := new CompactBitArray(bits);
  }

  // ------------------------------------------------------------ compact encoding

  const NULL: seq<Byte> := [0x6e, 0x75, 0x6c, 0x6c]

  function ToBytes(elems: seq<bv8>): (s: seq<Byte>)
    ensures |s| == |elems|
  {
    seq(|elems|, i requires 0 <= i < |elems| => elems[i] as int)
  }

  function FromBytes(s: seq<Byte>): (elems: seq<bv8>)
    ensures |elems| == |s|
  {
    seq(|s|, i requires 0 <= i < |s| => s[i] as bv8)
  }

  lemma BytesRoundTrip(elems: seq<bv8>)
    ensures FromBytes(ToBytes(elems)) == elems
  {
    forall i | 0 <= i < |elems| ensures FromBytes(ToBytes(elems))[i] == elems[i] {
      ByteRoundTrip(elems[i]);
    }
  }

  lemma ByteRoundTrip(b: bv8)
    ensures 0 <= b as int < 256 && (b as int) as bv8 == b
  {
  }

  /** `CompactMarshal`: the number of bits as a varint, then the bytes; "null" for an empty array. */
  function CompactMarshal(extra: nat, elems: seq<bv8>): seq<Byte> {
    var size := CountOf(extra, |elems|);
    if size <= 0 then NULL else VarintBytes(size) + ToBytes(elems)
  }

  datatype Uvarint = Number(v: nat, n: nat) | BufferTooSmall | TooLarge

  /** binary.Uvarint: at most ten bytes, the tenth at most 1. */
  function ReadUvarintFrom(data: seq<Byte>, k: nat, unit: nat, acc: nat): (r: Uvarint)
    ensures r.Number? ==> k < r.n <= k + |data|
    decreases |data|
  {
    if data == [] then BufferTooSmall
    else if k == 10 then TooLarge
    else if data[0] < 128 then
      if k == 9 && data[0] > 1 then TooLarge else Number(acc + data[0] * unit, k + 1)
    else ReadUvarintFrom(data[1..], k + 1, 128 * unit, acc + data[0] % 128 * unit)
  }

  function ReadUvarint(data: seq<Byte>): (r: Uvarint)
    ensures r.Number? ==> 0 < r.n <= |data| && r.v < U64
  {
    UvarintBelow(data, 0, 1, 0);
    ReadUvarintFrom(data, 0, 1, 0)
  }

  lemma {:induction false} UvarintBelow(data: seq<Byte>, k: nat, unit: nat, acc: nat)
    requires k <= 10 && unit == Pow(128, k) && acc < unit
    ensures var r := ReadUvarintFrom(data, k, unit, acc); r.Number? ==> r.v < U64
    decreases |data|
  {
    if data != [] && k < 10 {
      var b := data[0];
      OneMoreGroup(acc, b % 128, unit);
      LastUnit(k);
      if b >= 128 {
        assert Pow(128, k + 1) == 128 * unit;
        UvarintBelow(data[1..], k + 1, 128 * unit, acc + b % 128 * unit);
      } else if b <= 1 {
        MulMono(b, 1, unit);
      }
    }
  }

  lemma OneMoreGroup(acc: nat, b: nat, unit: nat)
    requires acc < unit && b < 128
    ensures acc + b * unit < 128 * unit && b * unit >= 0
  {
    MulMono(b, 127, unit);
  }

  /** Nine groups leave one bit of the 64. */
  lemma LastUnit(k: nat)
    requires k <= 9
    ensures k < 9 ==> 128 * Pow(128, k) <= I64
    ensures k == 9 ==> Pow(128, k) == I64
  {
    assert Pow(128, 9) == I64 by { PowAdds(128, 5, 4); }
    if k < 9 {
      PowAdds(128, k + 1, 8 - k);
      PowPositive(128, 8 - k);
      PowPositive(128, k + 1);
      MulMono(1, Pow(128, 8 - k), Pow(128, k + 1));
    }
  }

  datatype Unmarshalled = Decoded(extra: nat, elems: seq<bv8>) | Nil | Refused | Panicked

  /** int(size + 7) / 8 with uint64 wrap-around and a signed quotient. */
  function PayloadLength(size: nat): int {
    var w := (size + 7) % U64;
    Quo(if w < I64 then w else w - U64, 8)
  }

  /** `CompactUnmarshal`. An over-long varint makes the slice bound negative, which panics. */
  function CompactUnmarshal(bz: seq<Byte>): Unmarshalled {
    if |bz| < 2 then Refused
    else if bz == NULL then Nil
    else
      match ReadUvarint(bz)
      case TooLarge => Panicked
      case BufferTooSmall => Refused
      case Number(size, n) =>
        if |bz| - n != PayloadLength(size) then Refused else Decoded(size % 8, FromBytes(bz[n..]))
  }

  lemma {:induction false} ReadUvarintBack(v: nat, rest: seq<Byte>, k: nat, unit: nat, acc: nat, total: nat)
    requires (k == 0 || v >= 1) && unit == Pow(128, k) && Reaches(acc, v, unit, total) && total < U64
    ensures ReadUvarintFrom(VarintBytes(v) + rest, k, unit, acc) == Number(total, k + |VarintBytes(v)|)
    decreases v
  {
    if k > 0 { TenGroupsTooMany(v, k); }
    if k == 9 { LastGroup(v, unit, total, acc); }
    hide *;
    VarintHead(v, rest);
    UvarintStep(VarintBytes(v) + rest, k, unit, acc);
    if v >= 128 {
      NextPower(k);
      ReachesStep(acc, v, unit, total);
      ReadUvarintBack(v / 128, rest, k + 1, 128 * unit, acc + v % 128 * unit, total);
    } else {
      ReachesEnd(acc, v, unit, total);
    }
  }

  lemma LastGroup(v: nat, unit: nat, total: nat, acc: nat)
    requires unit == Pow(128, 9) && Reaches(acc, v, unit, total) && total < U64
    ensures v <= 1
  {
    assert Pow(128, 9) == 0x8000_0000_0000_0000 by { PowAdds(128, 5, 4); }
    if v >= 2 { MulMono(2, v, unit); }
  }

  lemma UvarintStep(data: seq<Byte>, k: nat, unit: nat, acc: nat)
    requires k < 10 && data != []
    ensures data[0] < 128 && (k == 9 ==> data[0] <= 1) ==>
              ReadUvarintFrom(data, k, unit, acc) == Number(acc + data[0] * unit, k + 1)
    ensures data[0] >= 128 ==>
              ReadUvarintFrom(data, k, unit, acc) == ReadUvarintFrom(data[1..], k + 1, 128 * unit, acc + data[0] % 128 * unit)
  {
  }

  lemma ReachesStep(acc: nat, v: nat, unit: nat, total: nat)
    requires Reaches(acc, v, unit, total) && v >= 128
    ensures acc + v % 128 * unit >= 0 && (v % 128 + 128) % 128 == v % 128
    ensures Reaches(acc + v % 128 * unit, v / 128, 128 * unit, total)
  {
    GroupSplit(v, v % 128, v / 128, unit);
  }

  lemma ReachesEnd(acc: nat, v: nat, unit: nat, total: nat)
    requires Reaches(acc, v, unit, total)
    ensures acc + v * unit == total
  {
  }

  lemma SizeOfConstructed(extra: nat, bytes: nat)
    requires extra < 8 && 0 < bytes && 8 * bytes < I64
    ensures var size := CountOf(extra, bytes);
            size > 0 && size % 8 == extra && PayloadLength(size) == bytes
  {
  }

  /** "ull": what follows the varint 110, the letter n, in the marker of an absent array. */
  const ULL: seq<Byte> := [0x75, 0x6c, 0x6c]

  /**
   "The encoding of an array with bits is never the null marker" is false of the code. An encoding is the
   marker exactly when the array has no bits, or 110 bits and the three bytes "ull".
   */
  lemma NullIff(extra: nat, elems: seq<bv8>)
    ensures var size := CountOf(extra, |elems|);
            CompactMarshal(extra, elems) == NULL <==> size <= 0 || (size == 110 && ToBytes(elems) == ULL)
  {
    var size, payload := CountOf(extra, |elems|), ToBytes(elems);
    if size > 0 {
      VarintHead(size, payload);
      hide ToBytes;
      assert NULL == [110] + ULL;
      if size < 128 {
        assert VarintBytes(size) == [size];
        assert ([size] + payload)[1..] == payload && ([110] + ULL)[1..] == ULL;
      }
    }
  }

  /** An array that the constructor made, or any with a remainder below eight and a byte, is never taken for absent. */
  lemma NotNull(extra: nat, elems: seq<bv8>)
    requires extra < 8 && elems != []
    ensures CompactMarshal(extra, elems) != NULL && |CompactMarshal(extra, elems)| >= 2
  {
    NullIff(extra, elems);
  }

  /** Remainder 94 and the bytes "ull" encode as "null". */
  lemma NullCollision()
    ensures CompactMarshal(94, [0x75, 0x6c, 0x6c]) == NULL
  {
    var elems: seq<bv8> := [0x75, 0x6c, 0x6c];
    NullIff(94, elems);
    assert ToBytes(elems) == ULL;
  }

  /** Decoding an encoded array restores its remainder and every byte, for every remainder below eight and some byte. */
  lemma CompactRoundTrip(extra: nat, elems: seq<bv8>)
    requires extra < 8 && elems != [] && 8 * |elems| < I64
    ensures CompactUnmarshal(CompactMarshal(extra, elems)) == Decoded(extra, elems)
  {
    var size, payload := CountOf(extra, |elems|), ToBytes(elems);
    SizeOfConstructed(extra, |elems|);
    NotNull(extra, elems);
    assert Pow(128, 0) == 1;
    assert Reaches(0, size, 1, size);
    ReadUvarintBack(size, payload, 0, 1, 0, size);
    BytesRoundTrip(elems);
    hide ReadUvarintFrom, VarintBytes, ToBytes, FromBytes, PayloadLength;
    assert (VarintBytes(size) + payload)[|VarintBytes(size)|..] == payload;
  }

  /** The round trip returns an array exactly when its remainder is below eight and it has a byte. */
  lemma CompactRoundTripIff(extra: nat, elems: seq<bv8>)
    requires 8 * |elems| < I64
    ensures CompactUnmarshal(CompactMarshal(extra, elems)) == Decoded(extra, elems) <==> extra < 8 && elems != []
  {
    if extra < 8 && elems != [] {
      CompactRoundTrip(extra, elems);
    } else {
      NullIff(extra, elems);
      DecodedRemainder(CompactMarshal(extra, elems));
      hide CompactUnmarshal, CompactMarshal;
      NullIsNil();
    }
  }

  lemma NullIsNil()
    ensures CompactUnmarshal(NULL) == Nil
  {
  }

  lemma DecodedRemainder(bz: seq<Byte>)
    ensures CompactUnmarshal(bz).Decoded? ==> CompactUnmarshal(bz).extra < 8
  {
    hide ReadUvarint, FromBytes, PayloadLength;
  }

  /** The first m bytes all have their continuation bit set. */
  predicate Continues(data: seq<Byte>, m: nat) {
    m <= |data| && forall i :: 0 <= i < m ==> data[i] >= 128
  }

  lemma ContinuesStep(data: seq<Byte>, m: nat)
    requires m > 0
    ensures Continues(data, m) <==> data != [] && data[0] >= 128 && Continues(data[1..], m - 1)
  {
    if data != [] && data[0] >= 128 && Continues(data[1..], m - 1) {
      forall i | 0 <= i < m ensures data[i] >= 128 {
        if i > 0 { assert data[i] == data[1..][i - 1]; }
      }
    }
  }

  lemma {:induction false} TooLargeFrom(data: seq<Byte>, k: nat, unit: nat, acc: nat)
    requires k <= 9
    ensures ReadUvarintFrom(data, k, unit, acc).TooLarge? <==>
              && Continues(data, 9 - k) && |data| > 9 - k && data[9 - k] > 1
              && (data[9 - k] >= 128 ==> |data| > 10 - k)
    decreases |data|
  {
    if k == 9 {
      if data != [] && data[0] >= 128 {
        var r := ReadUvarintFrom(data[1..], 10, 128 * unit, acc + data[0] % 128 * unit);
        assert r.TooLarge? <==> data[1..] != [];
      }
    } else {
      ContinuesStep(data, 9 - k);
      if data != [] && data[0] >= 128 {
        TooLargeFrom(data[1..], k + 1, 128 * unit, acc + data[0] % 128 * unit);
      }
    }
  }

  /**
   "Decoding never panics" is false of the code: the length prefix can make a slice bound negative.
   It does exactly when nine continuation bytes are followed by a tenth byte that is itself a
   continuation with a byte after it, or is larger than 1.
   */
  lemma CompactUnmarshalPanicsIff(bz: seq<Byte>)
    ensures CompactUnmarshal(bz).Panicked? <==>
              Continues(bz, 9) && |bz| > 9 && bz[9] > 1 && (bz[9] >= 128 ==> |bz| > 10)
  {
    TooLargeFrom(bz, 0, 1, 0);
    hide ReadUvarintFrom, FromBytes, PayloadLength;
  }

  /**
   A decoded array has as many bits as its prefix says, except for the fourteen largest prefixes:
   their byte count wraps around to zero.
   */
  lemma DecodedCountIff(bz: seq<Byte>, size: nat, n: nat)
    requires ReadUvarint(bz) == Number(size, n) && |bz| < I64
    requires CompactUnmarshal(bz).Decoded?
    ensures var d := CompactUnmarshal(bz);
            CountOf(d.extra, |d.elems|) == size <==> size < U64 - 14
  {
    hide ReadUvarintFrom, FromBytes;
  }

  /** Nine continuation bytes and a two: the decoder slices from -10. */
  lemma CompactUnmarshalCanPanic()
    ensures CompactUnmarshal([128, 128, 128, 128, 128, 128, 128, 128, 128, 2]).Panicked?
  {
    hide CompactUnmarshal;
    var bz: seq<Byte> := [128, 128, 128, 128, 128, 128, 128, 128, 128, 2];
    CompactUnmarshalPanicsIff(bz);
  }

  /** The prefix 2^64 - 1 without payload decodes to an array of -1 bits. */
  lemma DecodedCountCanDiffer()
    ensures var d := CompactUnmarshal(VarintBytes(U64 - 1));
            d == Decoded(7, []) && CountOf(d.extra, |d.elems|) == -1
  {
    hide ReadUvarintFrom, VarintBytes;
    var v, bz := U64 - 1, VarintBytes(U64 - 1);
    assert Pow(128, 0) == 1;
    assert Reaches(0, v, 1, v);
    ReadUvarintBack(v, [], 0, 1, 0, v);
    VarintHead(v, []);
    assert bz + [] == bz && bz[|bz|..] == [];
  }

  // ------------------------------------------------------------------- JSON form

  function JsonChar(b: bool): char { if b then 'x' else '_' }

  function BitString(bits: seq<bool>): (s: string)
    ensures |s| == |bits|
  {
    seq(|bits|, i requires 0 <= i < |bits| => JsonChar(bits[i]))
  }

  function ToJson(bits: seq<bool>): string { "\"" + BitString(bits) + "\"" }

  /** \A"([_x]*)"\z */
  predicate IsBitString(s: string) {
    |s| >= 2 && s[0] == '"' && s[|s| - 1] == '"' && forall i :: 1 <= i < |s| - 1 ==> s[i] == '_' || s[i] == 'x'
  }

  function JsonBits(s: string): (bits: seq<bool>)
    requires IsBitString(s)
    ensures |bits| == |s| - 2
  {
    seq(|s| - 2, i requires 0 <= i < |s| - 2 => s[i + 1] == 'x')
  }

  /** `MarshalJSON` of an array that is not nil; it panics when a bit below the count has no byte. */
  method MarshalJson(a: CompactBitArray) returns (s: Option<string>)
    ensures s == if a.Count() > 8 * a.elems.Length then None else Some(ToJson(a.Bits()))
  {
    hide BitsOf;
    var bits, size, i := "\"", a.Count(), 0;
    while i < size
      invariant 0 <= i && (i <= size || i == 0) && Min(i, size) <= 8 * a.elems.Length
      invariant i <= |a.Bits()| && bits == "\"" + BitString(a.Bits())[..i]
      decreases size - i
    {
      var b := a.GetIndex(i);
      if b.None? { return None; }
      bits := bits + [JsonChar(b.value)];
      i := i + 1;
    }
    assert i == |a.Bits()|;
    assert BitString(a.Bits())[..i] == BitString(a.Bits());
    s := Some(bits + "\"");
  }

  /** The first i bits, and none of the others. */
  function Partial(bits: seq<bool>, i: nat): (r: seq<bool>)
    ensures |r| == |bits|
  {
    seq(|bits|, k requires 0 <= k < |bits| => k < i && bits[k])
  }

  lemma PartialStep(bits: seq<bool>, i: nat)
    requires i < |bits|
    ensures Partial(bits, i + 1) == if bits[i] then Partial(bits, i)[i := true] else Partial(bits, i)
  {
  }

  lemma PartialEnds(bits: seq<bool>, none: seq<bool>)
    requires |none| == |bits| && forall k :: 0 <= k < |none| ==> !none[k]
    ensures Partial(bits, 0) == none && Partial(bits, |bits|) == bits
  {
  }

  /** A fresh array with the bits that the text spells out. */
  method ArrayFromJson(s: string) returns (a: CompactBitArray)
    requires IsBitString(s) && |s| > 2
    ensures fresh(a) && fresh(a.elems)
    ensures a.extraBitsStored < 8 && a.Bits() == JsonBits(s) && Clean(a.elems[..], |s| - 2)
  {
    var numBits := |s| - 2;
    hide BitsOf, Clean, CountOf, Partial;
    ghost var bits := JsonBits(s);
    a := new CompactBitArray(numBits);
    PartialEnds(bits, a.Bits());
    for i := 0 to numBits
      invariant fresh(a) && fresh(a.elems) && a.extraBitsStored < 8 && a.Count() == numBits && Clean(a.elems[..], numBits)
      invariant a.Bits() == Partial(bits, i)
    {
      PartialStep(bits, i);
      if s[i + 1] == 'x' {
        var ok := a.SetIndex(i, true);
      }
    }
  }

  datatype JsonOutcome = Accepted | Malformed | NilDereference

  /**
   `UnmarshalJSON`: "null" empties the array, text of another form is an error and changes nothing, and
   the empty string of bits dereferences the nil that stands for no bits.
   */
  method UnmarshalJson(a: CompactBitArray, s: string) returns (r: JsonOutcome)
    modifies a
    ensures r == if s != "null" && !IsBitString(s) then Malformed else if |s| == 2 then NilDereference else Accepted
    ensures r != Accepted ==> a.extraBitsStored == old(a.extraBitsStored) && a.elems == old(a.elems)
    ensures r == Accepted ==> fresh(a.elems) && a.extraBitsStored < 8 && a.Bits() == (if s == "null" then [] else JsonBits(s))
    ensures r == Accepted ==> Clean(a.elems[..], |a.Bits()|)
  {
    if s == "null" {
      a.extraBitsStored, a.elems := 0, new bv8[0];
      return Accepted;
    }
    if !IsBitString(s) { return Malformed; }
    if |s| == 2 { return NilDereference; }
    var a2 := ArrayFromJson(s);
    a.extraBitsStored, a.elems := a2.extraBitsStored, a2.elems;
    return Accepted;
  }

  /** The JSON form of any bits is accepted and read back as those bits. */
  lemma JsonRoundTrip(bits: seq<bool>)
    ensures IsBitString(ToJson(bits)) && JsonBits(ToJson(bits)) == bits
  {
    var s := ToJson(bits);
    forall i | 1 <= i < |s| - 1 ensures s[i] == JsonChar(bits[i - 1]) {
      assert s[i] == BitString(bits)[i - 1];
    }
  }
}
