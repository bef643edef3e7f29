/** How an account is laid out in a storage file, and that reading a record gives back what was written. */
module StoredAccounts {
  import opened Arith
  import opened Pubkeys

  // ---------------------------------------------------------------- little-endian numbers

  function LeValue(bytes: seq<Byte>): nat {
    if bytes == [] then 0 else bytes[0] + 256 * LeValue(bytes[1..])
  }

  function LeBytes(x: nat, n: nat): (bytes: seq<Byte>)
    ensures |bytes| == n
  {
    if n == 0 then [] else [x % 256] + LeBytes(x / 256, n - 1)
  }

  lemma {:induction false} LeRoundTrip(x: nat, n: nat)
    requires x < Pow256(n)
    ensures LeValue(LeBytes(x, n)) == x
  {
    if n > 0 {
      DivBelow(x, 256, Pow256(n - 1));
      LeRoundTrip(x / 256, n - 1);
      assert LeBytes(x, n)[1..] == LeBytes(x / 256, n - 1);
    }
  }

  lemma U64RoundTrip(x: U64)
    ensures LeValue(LeBytes(x, 8)) == x
  {
    var two, four := Pow256(2), Pow256(4);
    assert Pow256(1) == 256 && two == 0x1_0000;
    Pow256Add(2, 2);
    Pow256Add(4, 4);
    LeRoundTrip(x, 8);
  }

  lemma {:induction false} LeValueBound(bytes: seq<Byte>)
    ensures LeValue(bytes) < Pow256(|bytes|)
    decreases |bytes|
  {
    if bytes != [] {
      LeValueBound(bytes[1..]);
    }
  }

  /** The value of eight bytes. */
  function ReadU64(bytes: seq<Byte>): U64
    requires |bytes| == 8
  {
    U64Bound(bytes);
    LeValue(bytes)
  }

  lemma U64Bound(bytes: seq<Byte>)
    requires |bytes| == 8
    ensures LeValue(bytes) < U64_VALUES
  {
    var two, four := Pow256(2), Pow256(4);
    assert Pow256(1) == 256 && two == 0x1_0000;
    Pow256Add(2, 2);
    Pow256Add(4, 4);
    LeValueBound(bytes);
  }

  // ---------------------------------------------------------------- records

  const STORED_META_SIZE: nat := 48
  const ACCOUNT_META_SIZE: nat := 56
  const HASH_SIZE: nat := 32
  const KEY_SIZE: nat := 32
  const PADDING_SIZE: nat := 7

  /** The fixed part of a record: the sizes of its three pieces. */
  const STORE_META_OVERHEAD: nat := 136

  datatype StoredMeta = StoredMeta(writeVersion: U64, dataLen: U64, pubkey: seq<Byte>)

  /** `executable` is the byte in memory. */
  datatype AccountMeta = AccountMeta(lamports: U64, rentEpoch: U64, owner: seq<Byte>, executable: Byte)

  datatype Record = Record(meta: StoredMeta, account: AccountMeta, hash: seq<Byte>, data: seq<Byte>) {
    predicate Valid() {
      |meta.pubkey| == KEY_SIZE && |account.owner| == KEY_SIZE && |hash| == HASH_SIZE && meta.dataLen == |data|
    }
  }

  /** The four pieces of memory that a record takes. */
  datatype Raw = Raw(meta: seq<Byte>, account: seq<Byte>, hash: seq<Byte>, data: seq<Byte>) {
    predicate Valid() {
      && |meta| == STORED_META_SIZE && |account| == ACCOUNT_META_SIZE && |hash| == HASH_SIZE
      && DataLen(meta) == |data|
    }

    /** The bytes of the record, without what aligns the next one. */
    function Size(): nat {
      STORE_META_OVERHEAD + |data|
    }
  }

  /** The next multiple of eight, counting in eights. */
  function Align(x: nat): nat {
    if x == 0 then 0 else 8 + Align(if x <= 8 then 0 else x - 8)
  }

  predicate Aligned(x: nat) {
    Align(x) == x
  }

  /** Adding seven and clearing the low three bits. */
  lemma {:induction false} AlignIsMask(x: nat)
    ensures Align(x) == (x + 7) / 8 * 8
  {
    if x > 8 {
      AlignIsMask(x - 8);
    }
  }

  lemma AlignedIsMultiple(x: nat)
    ensures Aligned(x) <==> x % 8 == 0
  {
    AlignIsMask(x);
  }

  lemma {:induction false} AlignBound(x: nat)
    ensures x <= Align(x) < x + 8
  {
    if x > 8 {
      AlignBound(x - 8);
    }
  }

  lemma {:induction false} AlignIsAligned(x: nat)
    ensures Aligned(Align(x))
  {
    if x > 8 {
      AlignIsAligned(x - 8);
      AlignBound(x - 8);
    }
  }

  lemma {:induction false} AlignAdd(base: nat, x: nat)
    requires Aligned(base)
    ensures Align(base + x) == base + Align(x)
  {
    if base > 0 {
      AlignBound(if base <= 8 then 0 else base - 8);
      AlignAdd(base - 8, x);
    }
  }

  function AlignedStoredSize(dataLen: nat): nat {
    Align(STORE_META_OVERHEAD + dataLen)
  }

  // ---------------------------------------------------------------- writing

  function EncodeMeta(m: StoredMeta): seq<Byte> {
    LeBytes(m.writeVersion, 8) + LeBytes(m.dataLen, 8) + m.pubkey
  }

  /** The structure in memory, with whatever is in the bytes behind its last field. */
  function EncodeAccount(a: AccountMeta, padding: seq<Byte>): seq<Byte> {
    LeBytes(a.lamports, 8) + LeBytes(a.rentEpoch, 8) + a.owner + [a.executable] + padding
  }

  /** What is copied for a record. */
  function Encode(r: Record, padding: seq<Byte>): Raw {
    Raw(EncodeMeta(r.meta), EncodeAccount(r.account, padding), r.hash, r.data)
  }

  // ---------------------------------------------------------------- reading

  function DecodeMeta(s: seq<Byte>): StoredMeta
    requires |s| == STORED_META_SIZE
  {
    StoredMeta(ReadU64(s[..8]), ReadU64(s[8..16]), s[16..])
  }

  function DecodeAccount(s: seq<Byte>): AccountMeta
    requires |s| == ACCOUNT_META_SIZE
  {
    AccountMeta(ReadU64(s[..8]), ReadU64(s[8..16]), s[16..48], s[48])
  }

  function DataLen(meta: seq<Byte>): U64
    requires |meta| == STORED_META_SIZE
  {
    ReadU64(meta[8..16])
  }

  function Decode(raw: Raw): Record
    requires raw.Valid()
  {
    Record(DecodeMeta(raw.meta), DecodeAccount(raw.account), raw.hash, raw.data)
  }

  lemma MetaRoundTrip(m: StoredMeta)
    requires |m.pubkey| == KEY_SIZE
    ensures |EncodeMeta(m)| == STORED_META_SIZE && DecodeMeta(EncodeMeta(m)) == m
  {
    var s := EncodeMeta(m);
    assert s[..8] == LeBytes(m.writeVersion, 8) && s[8..16] == LeBytes(m.dataLen, 8) && s[16..] == m.pubkey;
    U64RoundTrip(m.writeVersion);
    U64RoundTrip(m.dataLen);
  }

  lemma AccountRoundTrip(a: AccountMeta, padding: seq<Byte>)
    requires |a.owner| == KEY_SIZE && |padding| == PADDING_SIZE
    ensures |EncodeAccount(a, padding)| == ACCOUNT_META_SIZE && DecodeAccount(EncodeAccount(a, padding)) == a
  {
    var s := EncodeAccount(a, padding);
    assert s[..8] == LeBytes(a.lamports, 8) && s[8..16] == LeBytes(a.rentEpoch, 8) && s[16..48] == a.owner;
    U64RoundTrip(a.lamports);
    U64RoundTrip(a.rentEpoch);
  }

  /** Reading what was written for a record gives the record, whatever was in the padding. */
  lemma RecordRoundTrip(r: Record, padding: seq<Byte>)
    requires r.Valid() && |padding| == PADDING_SIZE
    ensures Encode(r, padding).Valid() && Decode(Encode(r, padding)) == r
  {
    MetaRoundTrip(r.meta);
    AccountRoundTrip(r.account, padding);
    assert DataLen(EncodeMeta(r.meta)) == DecodeMeta(EncodeMeta(r.meta)).dataLen;
  }

  /** Where the fields are: the numbers in eight bytes each, then the key, and one byte for the flag. */
  lemma FieldsAreAt(r: Record, padding: seq<Byte>)
    requires r.Valid() && |padding| == PADDING_SIZE
    ensures var raw := Encode(r, padding);
            && |raw.meta| == 48 && LeValue(raw.meta[0..8]) == r.meta.writeVersion && LeValue(raw.meta[8..16]) == r.meta.dataLen
            && raw.meta[16..48] == r.meta.pubkey
            && |raw.account| == 56 && LeValue(raw.account[0..8]) == r.account.lamports
            && LeValue(raw.account[8..16]) == r.account.rentEpoch && raw.account[16..48] == r.account.owner
            && raw.account[48] == r.account.executable && raw.hash == r.hash && raw.data == r.data
  {
    RecordRoundTrip(r, padding);
    var raw := Encode(r, padding);
    assert raw.meta[0..8] == raw.meta[..8] && raw.meta[16..48] == raw.meta[16..] && raw.account[0..8] == raw.account[..8];
    assert Decode(raw).meta == r.meta && Decode(raw).account == r.account;
  }

  /** The least significant byte comes first. */
  lemma LeastByteFirst(x: U64, k: nat)
    requires k < 8
    ensures LeBytes(x, 8)[k] == (x / Pow256(k)) % 256
  {
    LeByteAt(x, 8, k);
  }

  lemma {:induction false} LeByteAt(x: nat, n: nat, k: nat)
    requires k < n
    ensures LeBytes(x, n)[k] == (x / Pow256(k)) % 256
    decreases k
  {
    if k > 0 {
      LeByteAt(x / 256, n - 1, k - 1);
      DivTwice(x, 256, Pow256(k - 1));
    } else {
      DivUnique(x, 1, x);
    }
  }
}
