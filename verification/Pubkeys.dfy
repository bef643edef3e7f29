/**
 Public keys. A key is 32 bytes compared byte by byte; the model reads it as the number its bytes
 spell, most significant byte first. `LexIsNumeric` and `BeAppend` say why nothing is lost: byte
 order is numeric order, and a prefix of the bytes is a quotient of the number.
 */
module Pubkeys {
  import opened Arith

  const PUBKEY_SPACE: nat := 0x1_0000_0000_0000_0000_0000_0000_0000_0000_0000_0000_0000_0000_0000_0000_0000_0000

  type Pubkey = k: nat | k < PUBKEY_SPACE

  type Byte = b: nat | b < 256

  function Pow256(n: nat): (p: nat)
    ensures p >= 1
  {
    if n == 0 then 1 else 256 * Pow256(n - 1)
  }

  /** The number that `bytes` spell, most significant byte first. */
  function BeValue(bytes: seq<Byte>): nat {
    if bytes == [] then 0 else 256 * BeValue(bytes[..|bytes| - 1]) + bytes[|bytes| - 1]
  }

  lemma {:induction false} BeBound(bytes: seq<Byte>)
    ensures BeValue(bytes) < Pow256(|bytes|)
  {
    if bytes != [] {
      BeBound(bytes[..|bytes| - 1]);
    }
  }

  /** Cutting the bytes in two is dividing by a power of 256. */
  lemma {:induction false} BeAppend(a: seq<Byte>, b: seq<Byte>)
    ensures BeValue(a + b) == BeValue(a) * Pow256(|b|) + BeValue(b)
    ensures BeValue(a + b) / Pow256(|b|) == BeValue(a)
    decreases |b|
  {
    if b == [] {
      assert a + b == a;
    } else {
      var b' := b[..|b| - 1];
      BeAppend(a, b');
      assert (a + b)[..|a + b| - 1] == a + b';
      var p := Pow256(|b'|);
      assert 256 * (BeValue(a) * p) == BeValue(a) * (256 * p);
    }
    BeBound(b);
    DivUnique(BeValue(a + b), Pow256(|b|), BeValue(a));
  }

  /** Byte by byte comparison. */
  predicate LexLess(a: seq<Byte>, b: seq<Byte>)
    requires |a| == |b|
  {
    a != [] && (a[0] < b[0] || (a[0] == b[0] && LexLess(a[1..], b[1..])))
  }

  lemma {:induction false} LexIsNumeric(a: seq<Byte>, b: seq<Byte>)
    requires |a| == |b|
    ensures LexLess(a, b) <==> BeValue(a) < BeValue(b)
    decreases |a|
  {
    if a != [] {
      var p := Pow256(|a| - 1);
      LexIsNumeric(a[1..], b[1..]);
      BeAppend([a[0]], a[1..]);
      BeAppend([b[0]], b[1..]);
      assert [a[0]] + a[1..] == a && [b[0]] + b[1..] == b;
      BeBound(a[1..]);
      BeBound(b[1..]);
      SingleByte(a[0]);
      SingleByte(b[0]);
      LeadingByteDecides(a[0], b[0], p, BeValue(a[1..]), BeValue(b[1..]));
    }
  }

  lemma SingleByte(x: Byte)
    ensures BeValue([x]) == x
  {
    assert [x][..0] == [];
  }

  lemma LeadingByteDecides(x: nat, y: nat, p: nat, s: nat, t: nat)
    requires s < p && t < p
    ensures x < y ==> x * p + s < y * p + t
    ensures x == y ==> (x * p + s < y * p + t <==> s < t)
    ensures x > y ==> x * p + s > y * p + t
  {
    MulSucc(x, p);
    MulSucc(y, p);
    MulLe(x + 1, y, p);
    MulLe(y + 1, x, p);
  }

  // ---------------------------------------------------------------- bins

  const MAX_BINS: nat := 0x100_0000

  /** 256 to the power of 29, the bytes after the first three. */
  const BELOW_BIN_BYTES: nat := 0x1_00_0000_0000_0000_0000_0000_0000_0000_0000_0000_0000_0000_0000_0000_0000

  function Pow2(n: nat): (p: nat)
    ensures p >= 1
  {
    if n == 0 then 1 else 2 * Pow2(n - 1)
  }

  lemma {:induction false} Pow2Add(m: nat, n: nat)
    ensures Pow2(m + n) == Pow2(m) * Pow2(n)
    decreases m
  {
    if m > 0 {
      Pow2Add(m - 1, n);
      var p, q := Pow2(m - 1), Pow2(n);
      assert 2 * (p * q) == (2 * p) * q;
    }
  }

  /** `PubkeyBinCalculator24`: the leading bits of the first three bytes. */
  datatype Binner = Binner(bits: nat) {

    ghost predicate Valid() {
      bits <= 24
    }

    ghost function Bins(): nat {
      Pow2(bits)
    }

    /** The first three bytes, shifted right by `24 - bits`. */
    function BinFromPubkey(key: Pubkey): nat
      requires Valid()
    {
      Quotient(Quotient(key, BELOW_BIN_BYTES), Pow2(24 - bits))
    }
  }

  /** A bin index is within range, and bins follow the order of the keys. */
  lemma BinsAreOrderedRanges(b: Binner, x: Pubkey, y: Pubkey)
    requires b.Valid()
    ensures b.BinFromPubkey(x) < b.Bins()
    ensures x <= y ==> b.BinFromPubkey(x) <= b.BinFromPubkey(y)
  {
    var w := Pow2(24 - b.bits);
    Pow2Add(b.bits, 24 - b.bits);
    MaxBinsIsPow2();
    DivBelow(x, BELOW_BIN_BYTES, MAX_BINS);
    DivBelow(Quotient(x, BELOW_BIN_BYTES), w, b.Bins());
    if x <= y {
      DivMonotone(x, y, BELOW_BIN_BYTES);
      DivMonotone(Quotient(x, BELOW_BIN_BYTES), Quotient(y, BELOW_BIN_BYTES), w);
    }
  }

  lemma MaxBinsIsPow2()
    ensures Pow2(24) == MAX_BINS
  {
    Pow2Add(12, 12);
    Pow2Add(6, 6);
    assert Pow2(6) == 64;
  }

  /** The quotient in `BinFromPubkey` is the number its first three bytes spell. */
  lemma FirstThreeBytes(bytes: seq<Byte>)
    requires |bytes| == 32
    ensures BeValue(bytes) / BELOW_BIN_BYTES == BeValue(bytes[..3])
  {
    BeAppend(bytes[..3], bytes[3..]);
    assert bytes[..3] + bytes[3..] == bytes;
    Pow256Add(14, 15);
    Pow256Add(7, 8);
    Pow256Add(7, 7);
  }

  lemma {:induction false} Pow256Add(m: nat, n: nat)
    ensures Pow256(m + n) == Pow256(m) * Pow256(n)
    decreases m
  {
    if m > 0 {
      Pow256Add(m - 1, n);
      var p, q := Pow256(m - 1), Pow256(n);
      assert 256 * (p * q) == (256 * p) * q;
    }
  }

  /** Every bin has an equal share of the keys: bin b has those from b shares on, up to the next share. */
  lemma BinsAreEqualShares(b: Binner, key: Pubkey, share: nat)
    requires b.Valid() && share * b.Bins() == PUBKEY_SPACE
    ensures b.BinFromPubkey(key) * share <= key < b.BinFromPubkey(key) * share + share
  {
    var w, first := Pow2(24 - b.bits), Quotient(key, BELOW_BIN_BYTES);
    ShareIs(b, share, w);
    DivBounds(key, BELOW_BIN_BYTES);
    DivBounds(first, w);
    NestedBounds(key, BELOW_BIN_BYTES, first, w, Quotient(first, w));
  }

  lemma ShareIs(b: Binner, share: nat, w: nat)
    requires b.Valid() && share * b.Bins() == PUBKEY_SPACE && w == Pow2(24 - b.bits)
    ensures share == w * BELOW_BIN_BYTES
  {
    Pow2Add(b.bits, 24 - b.bits);
    MaxBinsIsPow2();
    Regroup(b.Bins(), w, BELOW_BIN_BYTES);
    EqualFactors(share, w * BELOW_BIN_BYTES, b.Bins());
  }

  lemma Regroup(n: nat, w: nat, d: nat)
    ensures (w * d) * n == (n * w) * d
  {
  }

  lemma EqualFactors(x: nat, y: nat, n: nat)
    requires n > 0 && x * n == y * n
    ensures x == y
  {
    DivUnique(x * n, n, x);
    DivUnique(y * n, n, y);
  }

  lemma NestedBounds(key: nat, d: nat, first: nat, w: nat, q: nat)
    requires first * d <= key < first * d + d && q * w <= first < q * w + w
    ensures q * (w * d) <= key < q * (w * d) + w * d
  {
    MulLe(q * w, first, d);
    MulLe(first + 1, q * w + w, d);
    MulSucc(first, d);
    assert (q * w) * d == q * (w * d) && (q * w + w) * d == q * (w * d) + w * d;
  }
}
