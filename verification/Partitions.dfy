/**
 Rent collection visits all accounts in turn: each slot gets some partitions of the key space. Keys
 are cut by their first eight bytes, in 64-bit arithmetic.
 */
module Partitions {
  import opened Wrappers
  import opened Arith
  import opened Pubkeys

  const PREFIX_MAX: U64 := U64_MAX

  /** The number of keys with the same first eight bytes. */
  const KEYS_PER_PREFIX: nat := 0x1_0000_0000_0000_0000_0000_0000_0000_0000_0000_0000_0000_0000

  /** From the index after `start` to `end`, of `count`; from index 0 if both are 0. */
  datatype Partition = Partition(start: U64, end: U64, count: U64)

  /** An inclusive range of keys. */
  datatype KeyRange = KeyRange(lo: Pubkey, hi: Pubkey) {
    predicate Has(key: Pubkey) {
      lo <= key <= hi
    }
  }

  function WrapMul(a: U64, b: U64): U64 {
    (a * b) % U64_VALUES
  }

  function WrapPred(a: U64): U64 {
    if a == 0 then PREFIX_MAX else a - 1
  }

  function PrefixFromPubkey(key: Pubkey): (p: U64)
  {
    PrefixBound(key);
    key / KEYS_PER_PREFIX
  }

  lemma PrefixBound(key: Pubkey)
    ensures key / KEYS_PER_PREFIX < U64_VALUES
  {
    DivBelow(key, KEYS_PER_PREFIX, U64_VALUES);
  }

  /** The first and the last key with a prefix. */
  function FirstKey(prefix: U64): Pubkey {
    prefix * KEYS_PER_PREFIX
  }

  function LastKey(prefix: U64): Pubkey {
    prefix * KEYS_PER_PREFIX + (KEYS_PER_PREFIX - 1)
  }

  lemma KeyRangeIsPrefixRange(lo: U64, hi: U64, key: Pubkey)
    ensures KeyRange(FirstKey(lo), LastKey(hi)).Has(key) <==> lo <= PrefixFromPubkey(key) <= hi
  {
    DivBelow(key, KEYS_PER_PREFIX, lo);
    DivBelow(key, KEYS_PER_PREFIX, hi + 1);
  }

  /** The prefix is the number that the first eight bytes spell. */
  lemma PrefixIsFirstEightBytes(bytes: seq<Byte>)
    requires |bytes| == 32
    ensures BeValue(bytes) < PUBKEY_SPACE && PrefixFromPubkey(BeValue(bytes)) == BeValue(bytes[..8])
  {
    assert bytes == bytes[..8] + bytes[8..];
    BeAppend(bytes[..8], bytes[8..]);
    BeBound(bytes);
    PowersOf256();
  }

  lemma PowersOf256()
    ensures Pow256(24) == KEYS_PER_PREFIX && Pow256(32) == PUBKEY_SPACE
  {
    assert Pow256(1) == 256 && Pow256(2) == 0x1_0000;
    Pow256Add(2, 2);
    Pow256Add(4, 4);
    Pow256Add(8, 8);
    Pow256Add(8, 16);
    Pow256Add(8, 24);
  }

  // ---------------------------------------------------------------- the width of a partition

  function Width(count: U64): (w: U64)
    requires count > 1
    ensures w == U64_VALUES / count
  {
    WidthIsFloor(count);
    (PREFIX_MAX - count + 1) / count + 1
  }

  /** The width is 2^64 / count, computed without overflow. */
  lemma WidthIsFloor(count: U64)
    requires count > 1
    ensures var w := (PREFIX_MAX - count + 1) / count + 1;
            0 < w < U64_VALUES && count * w <= U64_VALUES < count * w + count && w == U64_VALUES / count
  {
    var q := (PREFIX_MAX - count + 1) / count;
    DivBounds(U64_VALUES - count, count);
    MulSucc(q, count);
    assert (q + 1) * count == count * (q + 1);
    DivUnique(U64_VALUES, count, q + 1);
    MulLe(2, count, q + 1);
  }

  /** No multiple of the width that is needed overflows. */
  lemma NoWrap(count: U64, i: U64)
    requires 1 < count && i < count
    ensures WrapMul(i, Width(count)) == i * Width(count) && (i > 0 ==> i * Width(count) > 0)
    ensures i * Width(count) + Width(count) <= U64_VALUES
  {
    var w := Width(count);
    WidthIsFloor(count);
    MulLe(i + 1, count, w);
    MulSucc(i, w);
    MulLe(1, i, w);
    assert i * w < U64_VALUES;
  }

  // ---------------------------------------------------------------- ranges

  /** `pubkey_range_from_partition`. */
  function PubkeyRange(p: Partition): Outcome<KeyRange> {
    if !(p.start <= p.end && p.start < p.count && p.end < p.count && 0 < p.count) then Panicked
    else if p.count == 1 then Returned(KeyRange(0, PUBKEY_SPACE - 1))
    else
      var width := Width(p.count);
      var startPrefix := if p.start == 0 && p.end == 0 then 0
                         else if p.start + 1 == p.count then PREFIX_MAX
                         else WrapMul(p.start + 1, width);
      var endPrefix := if p.end + 1 == p.count then PREFIX_MAX else WrapPred(WrapMul(p.end + 1, width));
      if p.start != 0 && p.start == p.end then
        // nothing to do, so one key
        if endPrefix == PREFIX_MAX then Returned(KeyRange(LastKey(endPrefix), LastKey(endPrefix)))
        else Returned(KeyRange(FirstKey(startPrefix), FirstKey(startPrefix)))
      else Returned(KeyRange(FirstKey(startPrefix), LastKey(endPrefix)))
  }

  /** A range is defined exactly for indexes in order that are below their number. */
  lemma RangePanicsExactly(p: Partition)
    ensures PubkeyRange(p).Returned? <==> p.start <= p.end < p.count
  {
  }

  /** Of one partition, the range and the index are for every key; of none there is neither. */
  lemma OnePartitionHasAll(key: Pubkey, start: U64, end: U64)
    ensures PubkeyRange(Partition(0, 0, 1)).Returned? && PubkeyRange(Partition(0, 0, 1)).value.Has(key)
    ensures PartitionFromPubkey(key, 1) == Returned(0)
    ensures PubkeyRange(Partition(start, end, 0)).Panicked? && PartitionFromPubkey(key, 0).Panicked?
  {
  }

  /** The tile that a prefix is in: the last one also has what the division leaves over. */
  function TileOf(prefix: U64, count: U64): U64
    requires count > 1
  {
    var q := prefix / Width(count);
    if q < count then q else count - 1
  }

  /** The partition that is one tile. */
  function TilePartition(tile: U64, count: U64): Partition {
    if tile == 0 then Partition(0, 0, count) else Partition(tile - 1, tile, count)
  }

  /** A partition that is for something. */
  predicate Proper(p: Partition) {
    p.start < p.end < p.count || (p.start == p.end == 0 && p.count > 0)
  }

  function FirstTile(p: Partition): nat {
    if p.start == p.end then 0 else p.start + 1
  }

  /** The range of a proper partition is the tiles it names. */
  lemma RangeIsTiles(p: Partition, key: Pubkey)
    requires Proper(p) && p.count > 1
    ensures PubkeyRange(p).Returned?
    ensures PubkeyRange(p).value.Has(key) <==> FirstTile(p) <= TileOf(PrefixFromPubkey(key), p.count) <= p.end
  {
    var w, prefix := Width(p.count), PrefixFromPubkey(key);
    var first: U64 := FirstTile(p);
    NoWrap(p.count, first);
    DivBelow(prefix, w, first);
    DivBelow(prefix, w, p.end + 1);
    if p.end + 1 < p.count {
      NoWrap(p.count, p.end + 1);
      KeyRangeIsPrefixRange(first * w, (p.end + 1) * w - 1, key);
    } else {
      KeyRangeIsPrefixRange(first * w, PREFIX_MAX, key);
    }
  }

  /** The ranges tile the key space: every key is in exactly one of them. */
  lemma TilesCoverKeysOnce(count: U64, tile: U64, key: Pubkey)
    requires count > 1 && tile < count
    ensures PubkeyRange(TilePartition(tile, count)).Returned?
    ensures PubkeyRange(TilePartition(tile, count)).value.Has(key) <==> tile == TileOf(PrefixFromPubkey(key), count)
  {
    RangeIsTiles(TilePartition(tile, count), key);
  }

  /** Neighbouring tiles meet without a gap; the first and the last end where the keys end. */
  lemma TilesMeet(count: U64, tile: U64)
    requires count > 1 && tile < count
    ensures PubkeyRange(TilePartition(tile, count)).Returned?
    ensures var range := PubkeyRange(TilePartition(tile, count)).value;
            && range.lo <= range.hi && (tile == 0 ==> range.lo == 0)
            && (tile + 1 == count ==> range.hi == PUBKEY_SPACE - 1)
            && (tile + 1 < count ==> PubkeyRange(TilePartition(tile + 1, count)).Returned?
                                     && PubkeyRange(TilePartition(tile + 1, count)).value.lo == range.hi + 1)
  {
    NoWrap(count, tile);
    if tile + 1 < count {
      NoWrap(count, tile + 1);
      MulSucc(tile, Width(count));
    }
  }

  // ---------------------------------------------------------------- from key to partition

  /** `partition_from_pubkey`. */
  function PartitionFromPubkey(key: Pubkey, count: U64): Outcome<nat> {
    if count == 1 then Returned(0)
    else if count == 0 then Panicked
    else
      var width, prefix := Width(count), PrefixFromPubkey(key);
      if prefix == 0 then Returned(0)
      else if prefix == PREFIX_MAX then Returned(count - 1)
      else Returned(AdjustedDivision(prefix, width))
  }

  function AdjustedDivision(prefix: U64, width: U64): nat
    requires 0 < width
  {
    var result := (prefix + 1) / width;
    if (prefix + 1) % width == 0 then (if result == 0 then 0 else result - 1) else result
  }

  lemma DivOfSucc(n: nat, w: nat)
    requires w > 0
    ensures n / w == if (n + 1) % w == 0 then (n + 1) / w - 1 else (n + 1) / w
    ensures (n + 1) % w == 0 ==> (n + 1) / w > 0
  {
    var m, q := n + 1, (n + 1) / w;
    DivBounds(m, w);
    assert m == q * w + m % w;
    if m % w == 0 {
      MulLe(1, q, w);
      assert q > 0;
      MulSucc(q - 1, w);
      DivUnique(n, w, q - 1);
    } else {
      DivUnique(n, w, q);
    }
  }

  /** The adjusted division rounds like the plain one. */
  lemma AdjustedIsPlain(prefix: U64, w: U64)
    requires w > 0
    ensures AdjustedDivision(prefix, w) == prefix / w
  {
    DivOfSucc(prefix, w);
  }

  lemma PartitionIsQuotient(key: Pubkey, count: U64)
    requires count > 1
    ensures var prefix := PrefixFromPubkey(key);
            PartitionFromPubkey(key, count) ==
              Returned(if prefix == PREFIX_MAX then count - 1 else prefix / Width(count))
  {
    AdjustedIsPlain(PrefixFromPubkey(key), Width(count));
    DivUnique(0, Width(count), 0);
  }

  /** The index is the tile of the key exactly outside of what the division leaves over, and for the last prefix. */
  lemma PartitionIsTile(key: Pubkey, count: U64)
    requires count > 1
    ensures var prefix := PrefixFromPubkey(key);
            PartitionFromPubkey(key, count) == Returned(TileOf(prefix, count)) <==>
              prefix < count * Width(count) || prefix == PREFIX_MAX
  {
    var prefix, w := PrefixFromPubkey(key), Width(count);
    PartitionIsQuotient(key, count);
    DivBelow(prefix, w, count);
    DivBelow(PREFIX_MAX, w, count - 1);
    WidthIsFloor(count);
    MulSucc(count - 1, w);
  }

  /** A key with the prefix before the last is the one to look at. */
  lemma LastButOnePrefix()
    ensures PrefixFromPubkey(FirstKey(PREFIX_MAX - 1)) == PREFIX_MAX - 1
  {
    KeyRangeIsPrefixRange(PREFIX_MAX - 1, PREFIX_MAX - 1, FirstKey(PREFIX_MAX - 1));
  }

  /** Every key has the index of its tile, if and only if the division leaves at most the last prefix over. */
  lemma AllTilesExactly(count: U64)
    requires count > 1
    ensures (forall key: Pubkey :: PartitionFromPubkey(key, count) == Returned(TileOf(PrefixFromPubkey(key), count))) <==>
              PREFIX_MAX <= count * Width(count)
  {
    LastButOnePrefix();
    PartitionIsTile(FirstKey(PREFIX_MAX - 1), count);
    if PREFIX_MAX <= count * Width(count) {
      forall key: Pubkey
        ensures PartitionFromPubkey(key, count) == Returned(TileOf(PrefixFromPubkey(key), count))
      {
        PartitionIsTile(key, count);
      }
    }
  }

  /** With seven partitions, a key of the last one gets index 7. */
  lemma KeyBeyondTheLastTile()
    ensures PartitionFromPubkey(FirstKey(PREFIX_MAX - 1), 7) == Returned(7)
    ensures TileOf(PrefixFromPubkey(FirstKey(PREFIX_MAX - 1)), 7) == 6
  {
    LastButOnePrefix();
    PartitionIsQuotient(FirstKey(PREFIX_MAX - 1), 7);
  }

  // ---------------------------------------------------------------- accounts that pay rent

  /** There is a bucket for the index of the key: with some counts not for every key. */
  ghost predicate HasBucket(key: Pubkey, count: U64) {
    PartitionFromPubkey(key, count).Returned? && PartitionFromPubkey(key, count).value <= count
  }

  lemma BucketExactly(key: Pubkey, count: U64)
    requires count > 1
    ensures HasBucket(key, count) <==>
              PrefixFromPubkey(key) == PREFIX_MAX || PrefixFromPubkey(key) < (count + 1) * Width(count)
  {
    PartitionIsQuotient(key, count);
    DivBelow(PrefixFromPubkey(key), Width(count), count + 1);
  }

  /** Every key has a bucket, if and only if one more tile would take what is left over. */
  lemma AllBucketsExactly(count: U64)
    requires count > 1
    ensures (forall key: Pubkey :: HasBucket(key, count)) <==> PREFIX_MAX <= (count + 1) * Width(count)
  {
    LastButOnePrefix();
    BucketExactly(FirstKey(PREFIX_MAX - 1), count);
    if PREFIX_MAX <= (count + 1) * Width(count) {
      forall key: Pubkey
        ensures HasBucket(key, count)
      {
        BucketExactly(key, count);
      }
    }
  }

  /** With 2^63 + 1 partitions, a tile is one prefix, and half of the prefixes are left over. */
  lemma KeyWithoutBucket()
    ensures !HasBucket(FirstKey(PREFIX_MAX - 1), 0x8000_0000_0000_0001)
  {
    LastButOnePrefix();
    PartitionIsQuotient(FirstKey(PREFIX_MAX - 1), 0x8000_0000_0000_0001);
  }

  /** Up to 2^32 partitions, every key has a bucket. */
  lemma FewPartitionsHaveBuckets(count: U64, key: Pubkey)
    requires 1 < count <= 0x1_0000_0000
    ensures HasBucket(key, count)
  {
    var w := Width(count);
    WidthIsFloor(count);
    DivBelow(U64_VALUES, count, 0x1_0000_0000);
    MulLe(count, 0x1_0000_0000, 0x1_0000_0000);
    assert w >= count;
    MulSucc(count, w);
    BucketExactly(key, count);
  }

  class RentPayingAccountsByPartition {
    var accounts: seq<set<Pubkey>>
    const partitionCount: U64

    /** The keys that were added. */
    ghost var added: set<Pubkey>

    ghost predicate Valid()
      reads this
    {
      |accounts| == partitionCount + 1 && Bucketed(accounts, added, partitionCount)
    }

    constructor (slotsPerEpoch: U64)
      ensures Valid() && partitionCount == slotsPerEpoch && added == {}
    {
      partitionCount := slotsPerEpoch;
      accounts := seq(slotsPerEpoch + 1, i => {});
      added := {};
    }

    /** Panics exactly if there is no bucket for the key. */
    method AddAccount(key: Pubkey) returns (r: Outcome<()>)
      requires Valid()
      modifies this
      ensures Valid() && (r.Returned? <==> HasBucket(key, partitionCount))
      ensures added == if r.Returned? then old(added) + {key} else old(added)
    {
      var index := PartitionFromPubkey(key, partitionCount);
      if index.Panicked? || index.value >= |accounts| {
        return Panicked;
      }
      accounts := accounts[index.value := accounts[index.value] + {key}];
      added := added + {key};
      return Returned(());
    }

    method GetPubkeysInPartitionIndex(index: U64) returns (keys: set<Pubkey>)
      requires Valid()
      ensures forall key: Pubkey :: key in keys <==> key in added && PartitionFromPubkey(key, partitionCount) == Returned(index)
    {
      keys := if index < |accounts| then accounts[index] else {};
    }
  }

  /** Each key that was added is in the bucket of its index. */
  ghost predicate Bucketed(accounts: seq<set<Pubkey>>, added: set<Pubkey>, count: U64) {
    && (forall i, key: Pubkey :: 0 <= i < |accounts| ==>
          (key in accounts[i] <==> key in added && PartitionFromPubkey(key, count) == Returned(i)))
    && (forall key :: key in added ==> HasBucket(key, count))
  }
}
