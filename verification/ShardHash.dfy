/** getShard: the hash that spreads keys over the shards, in Go's 64-bit
    arithmetic. */
module ShardHash {
  type Byte = b: int | 0 <= b < 256

  /** A Go string is a sequence of bytes. */
  type Bytes = seq<Byte>

  datatype Key = Key(bytes: Bytes)

  const INT64_LIMIT: int := 0x8000_0000_0000_0000

  function Wrap64(x: int): (r: int)
    ensures -INT64_LIMIT <= r < INT64_LIMIT
    ensures -INT64_LIMIT <= x < INT64_LIMIT ==> r == x
  {
    (x + INT64_LIMIT) % (2 * INT64_LIMIT) - INT64_LIMIT
  }

  function Hash(s: Bytes): (h: int)
    ensures -INT64_LIMIT <= h < INT64_LIMIT
  {
    if s == [] then 0 else Wrap64(31 * Hash(s[..|s| - 1]) + s[|s| - 1])
  }

  /** Negation overflows on the least 64-bit integer and leaves it negative. */
  function Folded(hash: int): int {
    if hash < 0 then Wrap64(-hash) else hash
  }

  /** Go's remainder takes the sign of its left operand. */
  function Rem(a: int, n: int): int
    requires n > 0
  {
    if a >= 0 then a % n else -((-a) % n)
  }

  function ShardIndex(key: Key, shardCount: int): int
    requires shardCount > 0
  {
    Rem(Folded(Hash(key.bytes)), shardCount)
  }

  predicate InRange(key: Key, shardCount: int)
    requires shardCount > 0
  {
    0 <= ShardIndex(key, shardCount) < shardCount
  }

  /** One key is out of range exactly when its hash is the least integer and the
      number of shards does not divide 2^63. */
  lemma InRangeIff(key: Key, shardCount: int)
    requires shardCount > 0
    ensures InRange(key, shardCount) <==> Hash(key.bytes) != -INT64_LIMIT || INT64_LIMIT % shardCount == 0
  {
    if Hash(key.bytes) == -INT64_LIMIT {
      assert Folded(Hash(key.bytes)) == -INT64_LIMIT;
    }
  }

  /** "atixvkzwitbdzy", whose hash is exactly -2^63. */
  const UNLUCKY: Bytes := [97, 116, 105, 120, 118, 107, 122, 119, 105, 116, 98, 100, 122, 121]

  lemma HashOfExtension(s: Bytes, b: Byte)
    ensures Hash(s + [b]) == Wrap64(31 * Hash(s) + b)
  {
    assert (s + [b])[..|s|] == s;
  }

  /** The hashes of its prefixes. */
  const UNLUCKY_HASHES: seq<int> :=
    [0, 97, 3123, 96918, 3004578, 93142036, 2887403223, 89509500035, 2774794501204, 86018629537429, 2666577515660415,
     82663902985472963, 2562580992549661953, 5653034474201314201, -INT64_LIMIT]

  lemma UnluckyTable()
    ensures forall i :: 0 <= i < 14 ==> UNLUCKY_HASHES[i + 1] == Wrap64(31 * UNLUCKY_HASHES[i] + UNLUCKY[i])
  {}

  lemma UnluckyHash()
    ensures Hash(UNLUCKY) == -INT64_LIMIT
  {
    UnluckyTable();
    for i := 0 to 14
      invariant Hash(UNLUCKY[..i]) == UNLUCKY_HASHES[i]
    {
      HashOfExtension(UNLUCKY[..i], UNLUCKY[i]);
      assert UNLUCKY[..i] + [UNLUCKY[i]] == UNLUCKY[..i + 1];
    }
    assert UNLUCKY[..14] == UNLUCKY;
  }

  /** Every key there is finds a shard exactly when the shard count divides 2^63,
      that is, when it is a power of two. */
  lemma AllKeysInRangeIff(shardCount: int)
    requires shardCount > 0
    ensures (forall key: Key :: InRange(key, shardCount)) <==> INT64_LIMIT % shardCount == 0
  {
    if INT64_LIMIT % shardCount == 0 {
      forall key: Key ensures InRange(key, shardCount) {
        InRangeIff(key, shardCount);
      }
    } else {
      UnluckyHash();
      InRangeIff(Key(UNLUCKY), shardCount);
    }
  }

  function Pow2(k: nat): (p: int)
    ensures p > 0
  {
    if k == 0 then 1 else 2 * Pow2(k - 1)
  }

  lemma {:induction false} PowersDivide(k: nat, m: nat)
    requires k <= m
    ensures Pow2(m) % Pow2(k) == 0
    decreases m
  {
    if k < m {
      PowersDivide(k, m - 1);
      var q := Pow2(m - 1) / Pow2(k);
      assert Pow2(m - 1) == q * Pow2(k);
      assert Pow2(m) == (2 * q) * Pow2(k);
      MultipleHasNoRemainder(2 * q, Pow2(k));
    } else {
      MultipleHasNoRemainder(1, Pow2(k));
    }
  }

  lemma MultipleHasNoRemainder(q: int, d: int)
    requires d > 0
    ensures (q * d) % d == 0
  {
    var p := (q * d) / d;
    assert d * (q - p) == (q * d) % d;
    MulBounds(d, q - p);
  }

  lemma MulBounds(d: int, x: int)
    requires d > 0
    ensures x >= 1 ==> d * x >= d
    ensures x <= -1 ==> d * x <= -d
  {}

  lemma Pow2Plus3(k: nat)
    ensures Pow2(k + 3) == 8 * Pow2(k)
  {
    assert Pow2(k + 3) == 2 * Pow2(k + 2) && Pow2(k + 2) == 2 * Pow2(k + 1);
  }

  lemma Pow2Of63()
    ensures Pow2(63) == INT64_LIMIT
  {
    var p := 1;
    for i := 0 to 21
      invariant p == Pow2(3 * i) == EIGHTS[i]
    {
      Pow2Plus3(3 * i);
      assert EIGHTS[i + 1] == 8 * EIGHTS[i];
      p := 8 * p;
    }
  }

  /** The powers of eight up to 2^63. */
  const EIGHTS: seq<int> :=
    [1, 8, 0x40, 0x200, 0x1000, 0x8000, 0x4_0000, 0x20_0000, 0x100_0000, 0x800_0000, 0x4000_0000, 0x2_0000_0000,
     0x10_0000_0000, 0x80_0000_0000, 0x400_0000_0000, 0x2000_0000_0000, 0x1_0000_0000_0000, 0x8_0000_0000_0000,
     0x40_0000_0000_0000, 0x200_0000_0000_0000, 0x1000_0000_0000_0000, 0x8000_0000_0000_0000]

  /** In particular every power of two up to 2^63 works, as the default of 32 does. */
  lemma PowerOfTwoShardsAreSafe(k: nat)
    requires k <= 63
    ensures forall key: Key :: InRange(key, Pow2(k))
    ensures forall key: Key :: InRange(key, 32)
  {
    Pow2Of63();
    PowersDivide(k, 63);
    AllKeysInRangeIff(Pow2(k));
    AllKeysInRangeIff(32);
  }

  /** The loop of getShard. */
  method GetShardIndex(key: Key, shardCount: int) returns (index: int)
    requires shardCount > 0
    ensures index == ShardIndex(key, shardCount)
  {
    var hash := 0;
    var s := key.bytes;
    for i := 0 to |s|
      invariant hash == Hash(s[..i])
    {
      assert s[..i + 1] == s[..i] + [s[i]];
      HashOfExtension(s[..i], s[i]);
      hash := Wrap64(31 * hash + s[i]);
    }
    assert s[..|s|] == s;
    if hash < 0 {
      hash := Wrap64(-hash);
    }
    index := Rem(hash, shardCount);
  }
}
