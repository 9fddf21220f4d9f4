/**
 Which byte strings `CompactUnmarshal` of crypto/types/compact_bit_array.go accepts, and as which
 array, in terms of the varint in front of them.
 */
module CompactForms {
  import opened Arith
  import opened Varint
  import opened WireGrammar
  import opened BitArrays

  /** The first n bytes are a varint of 64 bits: its tenth byte, if there is one, adds a single bit. */
  predicate IsPrefix(bz: seq<Byte>, n: nat) {
    n <= |bz| && IsVarint(bz[..n]) && (n == 10 ==> bz[9] <= 1)
  }

  /** The number of bits that the first n bytes announce. */
  function Announced(bz: seq<Byte>, n: nat): nat
    requires n <= |bz|
  {
    Groups(bz[..n])
  }

  /**
   As many bytes as the announced bits need; an announced count of 2^63 - 7 or more is never met,
   except that the fourteen largest counts are met by no bytes at all.
   */
  predicate PayloadFits(size: nat, bytes: nat) {
    if size >= U64 - 14 then bytes == 0 else size < I64 - 7 && bytes == (size + 7) / 8
  }

  lemma PayloadLengthIff(size: nat, bytes: nat)
    requires size < U64
    ensures bytes == PayloadLength(size) <==> PayloadFits(size, bytes)
  {
  }

  /** Reading, from the k-th byte of a prefix on, stops exactly where a prefix ends. */
  lemma {:induction false} PrefixEnds(data: seq<Byte>, k: nat, unit: nat, acc: nat, n: nat)
    requires k <= 10
    ensures var r := ReadUvarintFrom(data, k, unit, acc);
            r.Number? && r.n == n <==>
              k < n <= 10 && n - k <= |data| && IsVarint(data[..n - k]) && (n == 10 ==> data[9 - k] <= 1)
    decreases |data|
  {
    hide IsVarint;
    if k < 10 && data != [] {
      if data[0] < 128 {
        SingleByte(data);
        if k + 1 < n <= 10 && n - k <= |data| { NotLonger(data, n - k); }
      } else {
        PrefixEnds(data[1..], k + 1, 128 * unit, acc + data[0] % 128 * unit, n);
        if k < n && n - k <= |data| { VarintCons(data, n - k); }
      }
    }
  }

  lemma NotLonger(data: seq<Byte>, m: nat)
    requires 1 < m <= |data| && data[0] < 128
    ensures !IsVarint(data[..m])
  {
    assert data[..m][0] == data[0];
  }

  /** What has been read is what was there before plus the groups, in units. */
  lemma {:induction false} PrefixAdds(data: seq<Byte>, k: nat, unit: nat, acc: nat)
    requires k <= 10
    ensures var r := ReadUvarintFrom(data, k, unit, acc);
            r.Number? ==> r.v == acc + unit * Groups(data[..r.n - k])
    decreases |data|
  {
    var r := ReadUvarintFrom(data, k, unit, acc);
    if r.Number? {
      var b, t, m := data[0], data[1..], r.n - k;
      if b < 128 {
        OneByte(data, unit);
      } else {
        PrefixAdds(t, k + 1, 128 * unit, acc + b % 128 * unit);
        assert data[..m][0] == b && data[..m][1..] == t[..m - 1];
        NextGroup(acc, b % 128, unit, Groups(t[..m - 1]));
      }
    }
  }

  /** The prefix is cut off exactly when there are at most ten bytes and every one asks for another. */
  lemma {:induction false} PrefixCutOff(data: seq<Byte>, k: nat, unit: nat, acc: nat)
    requires k <= 10
    ensures ReadUvarintFrom(data, k, unit, acc).BufferTooSmall? <==> |data| <= 10 - k && Continues(data, |data|)
    decreases |data|
  {
    if k < 10 && data != [] {
      ContinuesStep(data, |data|);
      if data[0] >= 128 {
        PrefixCutOff(data[1..], k + 1, 128 * unit, acc + data[0] % 128 * unit);
      }
    }
  }

  lemma PrefixIff(bz: seq<Byte>, n: nat)
    ensures ReadUvarint(bz).Number? && ReadUvarint(bz).n == n <==> IsPrefix(bz, n)
    ensures IsPrefix(bz, n) ==> n <= |bz| && ReadUvarint(bz).v == Announced(bz, n) < U64
    ensures ReadUvarint(bz).BufferTooSmall? <==> |bz| <= 10 && Continues(bz, |bz|)
  {
    hide ReadUvarintFrom, Groups;
    PrefixEnds(bz, 0, 1, 0, n);
    PrefixAdds(bz, 0, 1, 0);
    PrefixCutOff(bz, 0, 1, 0);
  }

  /** The array is nil, without an error, exactly for the marker "null". */
  lemma NilIff(bz: seq<Byte>)
    ensures CompactUnmarshal(bz).Nil? <==> bz == NULL
  {
    hide ReadUvarint, FromBytes, PayloadLength;
  }

  /**
   An array is decoded exactly when a prefix and the payload it announces follow each other and the whole is
   not the marker. It holds the payload and the announced count modulo eight.
   */
  lemma DecodedIff(bz: seq<Byte>, d: Unmarshalled)
    requires d.Decoded?
    ensures CompactUnmarshal(bz) == d <==>
              && |bz| >= 2 && bz != NULL
              && exists n: nat :: && n <= |bz| && IsPrefix(bz, n) && PayloadFits(Announced(bz, n), |bz| - n)
                                  && d == Decoded(Announced(bz, n) % 8, FromBytes(bz[n..]))
  {
    hide ReadUvarint, FromBytes, PayloadLength, PayloadFits, IsPrefix, Announced;
    var r := ReadUvarint(bz);
    forall n: nat | n <= |bz| && IsPrefix(bz, n) ensures r == Number(Announced(bz, n), n) { PrefixIff(bz, n); }
    if r.Number? {
      PrefixIff(bz, r.n);
      PayloadLengthIff(r.v, |bz| - r.n);
    }
  }

  /**
   The bytes are refused exactly when there are fewer than two, the prefix is cut off, or another number of
   bytes than announced follows it; the marker is not refused.
   */
  lemma RefusedIff(bz: seq<Byte>)
    ensures CompactUnmarshal(bz).Refused? <==>
              || |bz| < 2
              || (bz != NULL && |bz| <= 10 && Continues(bz, |bz|))
              || (bz != NULL && exists n: nat :: n <= |bz| && IsPrefix(bz, n) && !PayloadFits(Announced(bz, n), |bz| - n))
  {
    hide ReadUvarint, FromBytes, PayloadLength, PayloadFits, IsPrefix, Announced;
    var r := ReadUvarint(bz);
    PrefixIff(bz, 0);
    forall n: nat | n <= |bz| && IsPrefix(bz, n) ensures r == Number(Announced(bz, n), n) { PrefixIff(bz, n); }
    if r.Number? {
      PrefixIff(bz, r.n);
      PayloadLengthIff(r.v, |bz| - r.n);
    }
  }

  /**
   What is written, for every remainder: an array with bits is a prefix that announces exactly its number of
   bits, followed by its bytes.
   */
  lemma MarshalAnnounces(extra: nat, elems: seq<bv8>) returns (n: nat)
    requires 0 < CountOf(extra, |elems|) < U64
    ensures var bz := CompactMarshal(extra, elems);
            && n <= |bz| && IsPrefix(bz, n) && Announced(bz, n) == CountOf(extra, |elems|)
            && bz[n..] == ToBytes(elems)
  {
    var size, payload := CountOf(extra, |elems|), ToBytes(elems);
    var bz := VarintBytes(size) + payload;
    n := |VarintBytes(size)|;
    assert Pow(128, 0) == 1;
    assert Reaches(0, size, 1, size);
    ReadUvarintBack(size, payload, 0, 1, 0, size);
    assert bz[n..] == payload;
    hide ReadUvarintFrom, VarintBytes, ToBytes, CountOf, IsPrefix, Announced;
    PrefixIff(bz, n);
  }
}
