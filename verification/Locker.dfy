/**
 The sharded lock of the batch sender (modules/base_client.go, `locker`). A shard is a channel of
 capacity one: a call holds the shard while its token is in the channel.
 */
module Locker {
  import opened Arith

  const OFFSET: bv32 := 2166136261

  /** A name as the bytes of a Go string. */
  type Key = seq<bv8>

  /** One round of the hash; the product wraps around at 32 bits. */
  function Mix(h: bv32, b: bv8): bv32 { (h * 16777619) ^ (b as bv32) }

  /** The 32-bit FNV-1 hash: multiply, then mix the next byte in. */
  function Hash(key: Key): bv32 {
    if key == [] then OFFSET
    else
      var n := |key| - 1;
      Mix(Hash(key[..n]), key[n])
  }

  /** Where a key's lock lives; the size of a locker is positive. */
  function ShardOf(key: Key, size: nat): (k: nat)
    requires size > 0
    ensures k < size
  {
    (Hash(key) as nat) % size
  }

  /** The two assignments in the body of the loop. */
  method Round(h: bv32, b: bv8) returns (hash: bv32)
    ensures hash == Mix(h, b)
  {
    hash := h;
    hash := hash * 16777619;
    hash := hash ^ (b as bv32);
  }

  method IndexFor(key: Key) returns (hash: bv32)
    ensures hash == Hash(key)
  {
    hide Mix;
    hash := OFFSET;
    for i := 0 to |key|
      invariant hash == Hash(key[..i])
    {
      hash := Round(hash, key[i]);
      assert key[..i + 1][..i] == key[..i];
    }
    assert key[..|key|] == key;
  }

  // ------------------------------------------------------------ what the hash tells apart

  /** The hash of a name goes on from the hash of what is in front. */
  lemma HashAppend(key: Key, b: bv8)
    ensures Hash(key + [b]) == Mix(Hash(key), b)
  {
    hide Mix;
    assert (key + [b])[..|key|] == key;
  }

  function Product(h: bv32): bv32 { h * 16777619 }

  /** Multiplying by the inverse of the prime modulo 2^32 undoes a round's product. */
  function Undone(p: bv32): bv32 { p * 899433627 }

  lemma InverseOfPrime(h: bv32)
    ensures Undone(h * 16777619) == h
  {
  }

  lemma ProductUndone(h: bv32)
    ensures Undone(Product(h)) == h
  {
    hide Undone;
    InverseOfPrime(h);
  }

  function Xor(p: bv32, x: bv32): bv32 { p ^ x }

  lemma XorUndone(p: bv32, x: bv32)
    ensures Xor(Xor(p, x), x) == p && Xor(p, Xor(p, x)) == x
  {
  }

  function Wide(b: bv8): bv32 { b as bv32 }

  lemma WideTells(b: bv8, c: bv8)
    requires Wide(b) == Wide(c)
    ensures b == c
  {
  }

  lemma MixIs(h: bv32, b: bv8)
    ensures Mix(h, b) == Xor(Product(h), Wide(b))
  {
  }

  /** A round loses nothing: when two rounds agree, their hashes were equal exactly if their bytes were. */
  lemma MixTells(h: bv32, g: bv32, b: bv8, c: bv8)
    requires Mix(h, b) == Mix(g, c)
    ensures h == g <==> b == c
  {
    hide Mix, Xor, Product, Undone, Wide;
    MixIs(h, b);
    MixIs(g, c);
    XorUndone(Product(h), Wide(b));
    XorUndone(Product(g), Wide(c));
    ProductUndone(h);
    ProductUndone(g);
    if h == g { WideTells(b, c); }
  }

  /** Behind a common ending two names have the same hash exactly when they had it before. */
  lemma {:induction false} CommonEnding(a: Key, b: Key, end: Key)
    ensures Hash(a + end) == Hash(b + end) <==> Hash(a) == Hash(b)
    decreases |end|
  {
    if end == [] {
      assert a + end == a && b + end == b;
    } else {
      hide Hash, Mix;
      var front, last := end[..|end| - 1], end[|end| - 1];
      CommonEnding(a, b, front);
      assert a + end == a + front + [last] && b + end == b + front + [last];
      HashAppend(a + front, last);
      HashAppend(b + front, last);
      if Hash(a + end) == Hash(b + end) { MixTells(Hash(a + front), Hash(b + front), last, last); }
    }
  }

  /** Two names that differ in exactly one byte have different hashes, wherever the byte is. */
  lemma OneByteApart(front: Key, b: bv8, c: bv8, end: Key)
    requires b != c
    ensures Hash(front + [b] + end) != Hash(front + [c] + end)
  {
    hide Hash, Mix;
    HashAppend(front, b);
    HashAppend(front, c);
    if Mix(Hash(front), b) == Mix(Hash(front), c) { MixTells(Hash(front), Hash(front), b, c); }
    CommonEnding(front + [b], front + [c], end);
  }

  function ThreeRounds(h: bv32, x: bv8, y: bv8, z: bv8): bv32 { Mix(Mix(Mix(h, x), y), z) }

  lemma HashThree(key: Key, x: bv8, y: bv8, z: bv8)
    ensures Hash(key + [x, y, z]) == ThreeRounds(Hash(key), x, y, z)
  {
    hide Hash, Mix;
    HashAppend(key, x);
    HashAppend(key + [x], y);
    HashAppend(key + [x] + [y], z);
    assert key + [x] + [y] + [z] == key + [x, y, z];
  }

  lemma ReferenceRounds()
    ensures ThreeRounds(OFFSET, 0x66, 0x6f, 0x6f) == 0x408f5e13
    ensures ThreeRounds(0x408f5e13, 0x62, 0x61, 0x72) == 0x31f0b262
  {
  }

  /** The published FNV-1 values of the empty name, "foo" and "foobar". */
  lemma ReferenceValues()
    ensures Hash([]) == 0x811c9dc5
    ensures var foo: Key := [0x66, 0x6f, 0x6f];
            Hash(foo) == 0x408f5e13 && Hash(foo + [0x62, 0x61, 0x72]) == 0x31f0b262
  {
    hide ThreeRounds, Mix;
    var foo: Key := [0x66, 0x6f, 0x6f];
    assert [] + foo == foo;
    HashThree([], 0x66, 0x6f, 0x6f);
    HashThree(foo, 0x62, 0x61, 0x72);
    ReferenceRounds();
  }

  /** How an operation on the lock goes: done, blocked until another caller moves, or a panic without shards. */
  datatype LockOutcome = Proceeds | Blocks | NoShards

  /** Channels of capacity one, as the number of tokens in each. */
  class Shards {
    const tokens: array<nat>

    ghost predicate Valid()
      reads this, tokens
    {
      forall k :: 0 <= k < tokens.Length ==> tokens[k] <= 1
    }

    /** `NewLocker`: every shard is free. */
    constructor (size: nat)
      ensures fresh(tokens) && tokens.Length == size && Valid()
      ensures forall k :: 0 <= k < size ==> tokens[k] == 0
    {
      tokens := new nat[size](_ => 0);
    }

    /** The shard of a name; without shards its number is a division by zero. */
    method GetShard(key: Key) returns (k: Option<nat>)
      ensures k == if tokens.Length == 0 then None else Some(ShardOf(key, tokens.Length))
    {
      var index := IndexFor(key);
      if tokens.Length == 0 { return None; }
      k := Some((index as nat) % tokens.Length);
    }

    /** `Lock`: the caller proceeds, with its token in the channel, or waits and nothing changes. */
    method Lock(key: Key) returns (r: LockOutcome)
      requires Valid()
      modifies tokens
      ensures Valid() && (r == NoShards <==> tokens.Length == 0)
      ensures tokens.Length > 0 ==>
        var k := ShardOf(key, tokens.Length);
        && r == (if old(tokens[k]) == 0 then Proceeds else Blocks)
        && tokens[..] == old(tokens[..])[k := 1]
    {
      var k := GetShard(key);
      if k.None? { return NoShards; }
      if tokens[k.value] == 1 { return Blocks; }
      tokens[k.value] := 1;
      return Proceeds;
    }

    /** `Unlock`: takes the token out; from a free shard there is none to take, so the caller waits. */
    method Unlock(key: Key) returns (r: LockOutcome)
      requires Valid()
      modifies tokens
      ensures Valid() && (r == NoShards <==> tokens.Length == 0)
      ensures tokens.Length > 0 ==>
        var k := ShardOf(key, tokens.Length);
        && r == (if old(tokens[k]) == 1 then Proceeds else Blocks)
        && tokens[..] == old(tokens[..])[k := 0]
    {
      var k := GetShard(key);
      if k.None? { return NoShards; }
      if tokens[k.value] == 0 { return Blocks; }
      tokens[k.value] := 0;
      return Proceeds;
    }
  }

  /** The names "a" and "b" of a locker with sixteen shards have different ones. */
  lemma TwoNamesApart()
    ensures ShardOf([0x61], 16) == 14 && ShardOf([0x62], 16) == 13
  {
    var a: Key, b: Key := [0x61], [0x62];
    assert a[..0] == [] && b[..0] == [];
    assert Hash(a) == Mix(OFFSET, 0x61) == 0x050c5d7e;
    assert Hash(b) == Mix(OFFSET, 0x62) == 0x050c5d7d;
  }
}
