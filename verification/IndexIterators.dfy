/**
 Walking over the keys of the index in batches. The keys are spread over bins by their leading bits;
 each call starts behind the last key of the batch before.
 */
module IndexIterators {
  import opened Wrappers
  import opened Arith
  import opened Pubkeys
  import opened SortedSets

  const ITER_BATCH_SIZE: nat := 1000

  datatype Bound = Unbounded | Included(key: Pubkey) | Excluded(key: Pubkey)

  predicate AfterStart(k: Pubkey, start: Bound) {
    match start
    case Unbounded => true
    case Included(key) => key <= k
    case Excluded(key) => key < k
  }

  predicate BeforeEnd(k: Pubkey, end: Bound) {
    match end
    case Unbounded => true
    case Included(key) => k <= key
    case Excluded(key) => k < key
  }

  predicate InRange(k: Pubkey, start: Bound, end: Bound) {
    AfterStart(k, start) && BeforeEnd(k, end)
  }

  /** A key cuts a range in two: what ends before it and what starts with it, or up to it and what is behind it. */
  lemma RangeSplits(k: Pubkey, start: Bound, end: Bound, cut: Pubkey)
    requires InRange(cut, start, end)
    ensures InRange(k, start, end) <==> InRange(k, start, Excluded(cut)) || InRange(k, Included(cut), end)
    ensures InRange(k, start, end) <==> InRange(k, start, Included(cut)) || InRange(k, Excluded(cut), end)
    ensures !(InRange(k, start, Excluded(cut)) && InRange(k, Included(cut), end))
    ensures !(InRange(k, start, Included(cut)) && InRange(k, Excluded(cut), end))
    ensures InRange(k, Included(cut), Included(cut)) <==> k == cut
    ensures InRange(k, Unbounded, Unbounded)
  {
  }

  type Bins = seq<set<Pubkey>>

  /** The keys of a bin that are in range. */
  function InBin(keys: set<Pubkey>, start: Bound, end: Bound): set<Pubkey> {
    set k | k in keys && InRange(k, start, end)
  }

  /** The keys in range of the bins from `lo` to before `hi`. */
  function Found(bins: Bins, lo: nat, hi: nat, start: Bound, end: Bound): set<Pubkey>
    requires hi <= |bins|
  {
    if hi <= lo then {} else Found(bins, lo, hi - 1, start, end) + InBin(bins[hi - 1], start, end)
  }

  lemma {:induction false} FoundMembers(bins: Bins, lo: nat, hi: nat, start: Bound, end: Bound, k: Pubkey)
    requires hi <= |bins|
    ensures k in Found(bins, lo, hi, start, end) <==> InRange(k, start, end) && exists b :: lo <= b < hi && k in bins[b]
  {
    if lo < hi {
      FoundMembers(bins, lo, hi - 1, start, end, k);
    }
  }

  /** All keys of the index that are in range. */
  function KeysInRange(bins: Bins, start: Bound, end: Bound): set<Pubkey> {
    Found(bins, 0, |bins|, start, end)
  }

  // ---------------------------------------------------------------- bins

  /** Each key is in its bin. */
  ghost predicate Binned(bins: Bins, binner: Binner) {
    && binner.Valid() && |bins| == binner.Bins()
    && forall b, k :: 0 <= b < |bins| && k in bins[b] ==> binner.BinFromPubkey(k) == b
  }

  /** The keys of lower bins are less. */
  lemma BinsAreOrdered(bins: Bins, binner: Binner, lo: nat, hi: nat, start: Bound, end: Bound, b: nat, x: Pubkey, y: Pubkey)
    requires Binned(bins, binner) && hi <= b < |bins|
    requires x in Found(bins, lo, hi, start, end) && y in bins[b]
    ensures x < y
  {
    FoundMembers(bins, lo, hi, start, end, x);
    var c :| lo <= c < hi && x in bins[c];
    BinsAreOrderedRanges(binner, y, x);
  }

  /** The bin where a bound is, or another one if there is no bound. */
  function BinFromBound(binner: Binner, bound: Bound, unboundedBin: nat): nat
    requires binner.Valid()
  {
    if bound.Unbounded? then unboundedBin else binner.BinFromPubkey(bound.key)
  }

  /** `bin_start_and_range`. */
  function BinStartAndRange(binner: Binner, start: Bound, end: Bound): (nat, nat)
    requires binner.Valid()
  {
    var startBin, endBinInclusive := BinFromBound(binner, start, 0), BinFromBound(binner, end, U64_MAX);
    var binRange :=
      if startBin > endBinInclusive then 0
      else if endBinInclusive == U64_MAX then U64_MAX
      else endBinInclusive + 1 - startBin;
    (startBin, binRange)
  }

  /** Where the walk over the bins stops. */
  function StopBin(bins: Bins, startBin: nat, binRange: nat): nat {
    if startBin + binRange < |bins| then startBin + binRange else |bins|
  }

  /** Every key in range is in one of the bins that are looked at. */
  lemma KeyIsInBins(bins: Bins, binner: Binner, start: Bound, end: Bound, b: nat, k: Pubkey)
    requires Binned(bins, binner) && |bins| <= U64_MAX && b < |bins| && k in bins[b] && InRange(k, start, end)
    ensures var (startBin, binRange) := BinStartAndRange(binner, start, end);
            startBin <= b < StopBin(bins, startBin, binRange)
  {
    if !start.Unbounded? {
      BinsAreOrderedRanges(binner, start.key, k);
    }
    if !end.Unbounded? {
      BinsAreOrderedRanges(binner, k, end.key);
      BinsAreOrderedRanges(binner, end.key, end.key);
    }
  }

  lemma BinsLookedAtSuffice(bins: Bins, binner: Binner, start: Bound, end: Bound)
    requires Binned(bins, binner) && |bins| <= U64_MAX
    ensures var (startBin, binRange) := BinStartAndRange(binner, start, end);
            Found(bins, startBin, StopBin(bins, startBin, binRange), start, end) == KeysInRange(bins, start, end)
  {
    var (startBin, binRange) := BinStartAndRange(binner, start, end);
    var stop := StopBin(bins, startBin, binRange);
    forall k: Pubkey
      ensures k in Found(bins, startBin, stop, start, end) <==> k in KeysInRange(bins, start, end)
    {
      FoundMembers(bins, startBin, stop, start, end, k);
      FoundMembers(bins, 0, |bins|, start, end, k);
      if b :| 0 <= b < |bins| && k in bins[b] && InRange(k, start, end) {
        KeyIsInBins(bins, binner, start, end, b, k);
      }
    }
  }

  /** One more bin is listed behind the ones before. */
  lemma AscendingByBins(bins: Bins, binner: Binner, lo: nat, b: nat, start: Bound, end: Bound)
    requires Binned(bins, binner) && lo <= b < |bins|
    ensures Ascending(Found(bins, lo, b + 1, start, end)) ==
              Ascending(Found(bins, lo, b, start, end)) + Ascending(InBin(bins[b], start, end))
  {
    var before, here := Found(bins, lo, b, start, end), InBin(bins[b], start, end);
    forall x, y | x in before && y in here
      ensures x < y
    {
      BinsAreOrdered(bins, binner, lo, b, start, end, b, x, y);
    }
    AscendingUnion(before, here);
  }

  lemma {:induction false} EarlierBinsComeFirst(bins: Bins, binner: Binner, lo: nat, b: nat, hi: nat, start: Bound, end: Bound)
    requires Binned(bins, binner) && lo <= b <= hi <= |bins|
    ensures Ascending(Found(bins, lo, b, start, end)) <= Ascending(Found(bins, lo, hi, start, end))
    decreases hi
  {
    if b < hi {
      EarlierBinsComeFirst(bins, binner, lo, b, hi - 1, start, end);
      AscendingByBins(bins, binner, lo, hi - 1, start, end);
    }
  }

  // ---------------------------------------------------------------- batches

  lemma KeysBehind(bins: Bins, start: Bound, end: Bound, last: Pubkey, x: Pubkey)
    requires AfterStart(last, start)
    ensures x in KeysInRange(bins, Excluded(last), end) <==> x in KeysInRange(bins, start, end) && last < x
  {
    FoundMembers(bins, 0, |bins|, start, end, x);
    FoundMembers(bins, 0, |bins|, Excluded(last), end, x);
  }

  lemma ListedIsInRange(bins: Bins, start: Bound, end: Bound, x: nat)
    requires x in Ascending(KeysInRange(bins, start, end))
    ensures x < PUBKEY_SPACE && AfterStart(x, start)
  {
    AscendingLists(KeysInRange(bins, start, end));
    FoundMembers(bins, 0, |bins|, start, end, x);
  }

  /** Starting behind the last key of a batch leaves what has not been listed. */
  lemma RestAfterBatch(bins: Bins, start: Bound, end: Bound, n: nat)
    requires 0 < n <= |Ascending(KeysInRange(bins, start, end))|
    ensures var all := Ascending(KeysInRange(bins, start, end));
            all[n - 1] < PUBKEY_SPACE && Ascending(KeysInRange(bins, Excluded(all[n - 1]), end)) == all[n..]
  {
    var m := KeysInRange(bins, start, end);
    var all := Ascending(m);
    var last := all[n - 1];
    ListedIsInRange(bins, start, end, last);
    var rest := KeysInRange(bins, Excluded(last), end);
    AscendingLists(m);
    PassedRest(m, n, last);
    forall x: Pubkey
      ensures x in rest <==> x in m && x > last
    {
      KeysBehind(bins, start, end, last, x);
    }
    AscendingLists(rest);
    AscendingUnique(Ascending(rest), all[n..], rest);
  }

  // ---------------------------------------------------------------- the items of a bin

  function KeysWith(s: seq<Pubkey>, k: Pubkey): seq<Pubkey> {
    if s == [] || s[|s| - 1] < k then s + [k] else KeysWith(s[..|s| - 1], k) + [s[|s| - 1]]
  }

  function SortedKeys(keys: seq<Pubkey>): seq<Pubkey> {
    if keys == [] then [] else KeysWith(SortedKeys(keys[..|keys| - 1]), keys[|keys| - 1])
  }

  lemma {:induction false} InsertedLists(s: seq<Pubkey>, m: set<Pubkey>, k: Pubkey)
    requires Lists(s, m) && k !in m
    ensures Lists(KeysWith(s, k), m + {k})
    decreases |s|
  {
    if s == [] || s[|s| - 1] < k {
      var one := {k};
      assert Lists([k], one);
      forall x, y | x in m && y in one
        ensures x < y
      {
        var i :| 0 <= i < |s| && s[i] == x;
      }
      ConcatLists(s, [k], m, one);
    } else {
      var init, last := s[..|s| - 1], s[|s| - 1];
      assert last in m;
      assert forall x :: x in s <==> x in init || x == last;
      assert Lists(init, m - {last});
      InsertedLists(init, m - {last}, k);
      var front, one := m - {last} + {k}, {last};
      forall x, y | x in front && y in one
        ensures x < y
      {
        if x != k {
          var i :| 0 <= i < |init| && init[i] == x;
        }
      }
      ConcatLists(KeysWith(init, k), [last], front, one);
      assert front + one == m + {k};
    }
  }

  lemma {:induction false} SortedKeysLists(keys: seq<Pubkey>, m: set<Pubkey>)
    requires Enumerates(keys, m)
    ensures Lists(SortedKeys(keys), m)
    decreases |keys|
  {
    if keys != [] {
      var init, last := keys[..|keys| - 1], keys[|keys| - 1];
      assert last in keys;
      assert forall k :: k in keys <==> k in init || k == last;
      assert Enumerates(init, m - {last});
      SortedKeysLists(init, m - {last});
      InsertedLists(SortedKeys(init), m - {last}, last);
      assert m - {last} + {last} == m;
    }
  }

  /** `items`: the keys of a bin in range, in the order of the hash map. */
  method Items(keys: set<Pubkey>, start: Bound, end: Bound) returns (result: seq<Pubkey>)
    ensures Enumerates(result, InBin(keys, start, end))
  {
    var rest := keys;
    result := [];
    while rest != {}
      invariant rest <= keys && Enumerates(result, InBin(keys - rest, start, end))
      decreases |rest|
    {
      var k :| k in rest;
      rest := rest - {k};
      assert keys - rest == keys - (rest + {k}) + {k};
      if InRange(k, start, end) {
        assert k !in result;
        result := result + [k];
      }
    }
    assert keys - rest == keys;
  }

  /** `range`: sorted, unless everything is wanted at once. */
  method Range(keys: set<Pubkey>, start: Bound, end: Bound, collectAllUnsorted: bool) returns (result: seq<Pubkey>)
    ensures Enumerates(result, InBin(keys, start, end))
    ensures !collectAllUnsorted ==> result == Ascending(InBin(keys, start, end))
  {
    result := Items(keys, start, end);
    if !collectAllUnsorted {
      ghost var m := InBin(keys, start, end);
      SortedKeysLists(result, m);
      AscendingLists(m);
      AscendingUnique(SortedKeys(result), Ascending(m), m);
      result := SortedKeys(result);
    }
  }

  // ---------------------------------------------------------------- the iterator

  /** What of the keys of the bins so far goes into a batch. */
  ghost function Batch(all: seq<nat>): seq<nat> {
    all[..Min(ITER_BATCH_SIZE, |all|)]
  }

  /** A batch is the beginning, a thousand or all of it. */
  lemma BatchIsBeginning(all: seq<nat>)
    ensures Batch(all) <= all && (Batch(all) == all || |Batch(all)| == 1000 < |all|)
  {
  }

  /** The keys of one more bin, until the batch is full. */
  method AddBin(chunk: seq<Pubkey>, items: seq<Pubkey>, collectAllUnsorted: bool) returns (chunk': seq<Pubkey>, full: bool)
    requires !collectAllUnsorted ==> |chunk| <= ITER_BATCH_SIZE
    ensures collectAllUnsorted ==> chunk' == chunk + items && !full
    ensures !collectAllUnsorted ==> chunk' == Batch(chunk + items) && full == (|chunk + items| > ITER_BATCH_SIZE)
  {
    chunk', full := chunk, false;
    for i := 0 to |items|
      invariant chunk' == chunk + items[..i] && (!collectAllUnsorted ==> |chunk'| <= ITER_BATCH_SIZE)
    {
      if |chunk'| >= ITER_BATCH_SIZE && !collectAllUnsorted {
        full := true;
        return;
      }
      chunk' := chunk' + [items[i]];
    }
  }

  lemma EnumeratesBoth(a: seq<Pubkey>, b: seq<Pubkey>, m: set<Pubkey>, n: set<Pubkey>)
    requires Enumerates(a, m) && Enumerates(b, n) && m !! n
    ensures Enumerates(a + b, m + n)
  {
    forall i, j | 0 <= i < j < |a + b|
      ensures (a + b)[i] != (a + b)[j]
    {
      if i < |a| <= j {
        assert a[i] in m && b[j - |a|] in n;
      }
    }
  }

  /** The bins from `lo` to before `b` are in the batch. */
  ghost predicate Collected(bins: Bins, lo: nat, b: nat, start: Bound, end: Bound, collectAllUnsorted: bool, chunk: seq<Pubkey>)
    requires b <= |bins|
  {
    var found := Found(bins, lo, b, start, end);
    if collectAllUnsorted then Enumerates(chunk, found) else chunk == Ascending(found) && |chunk| <= ITER_BATCH_SIZE
  }

  lemma CollectUnsorted(bins: Bins, binner: Binner, lo: nat, b: nat, start: Bound, end: Bound, chunk: seq<Pubkey>, items: seq<Pubkey>)
    requires Binned(bins, binner) && lo <= b < |bins|
    requires Collected(bins, lo, b, start, end, true, chunk) && Enumerates(items, InBin(bins[b], start, end))
    ensures Collected(bins, lo, b + 1, start, end, true, chunk + items)
  {
    var before, here := Found(bins, lo, b, start, end), InBin(bins[b], start, end);
    forall x | x in before && x in here
      ensures false
    {
      BinsAreOrdered(bins, binner, lo, b, start, end, b, x, x);
    }
    EnumeratesBoth(chunk, items, before, here);
  }

  lemma CollectSorted(bins: Bins, binner: Binner, lo: nat, b: nat, hi: nat, start: Bound, end: Bound, chunk: seq<Pubkey>, items: seq<Pubkey>)
    requires Binned(bins, binner) && lo <= b < hi <= |bins|
    requires Collected(bins, lo, b, start, end, false, chunk) && items == Ascending(InBin(bins[b], start, end))
    ensures |chunk + items| <= ITER_BATCH_SIZE ==>
              Batch(chunk + items) == chunk + items && Collected(bins, lo, b + 1, start, end, false, chunk + items)
    ensures |chunk + items| > ITER_BATCH_SIZE ==> Batch(chunk + items) == Batch(Ascending(Found(bins, lo, hi, start, end)))
  {
    AscendingByBins(bins, binner, lo, b, start, end);
    EarlierBinsComeFirst(bins, binner, lo, b + 1, hi, start, end);
  }

  method CollectBin(bins: Bins, binner: Binner, lo: nat, b: nat, hi: nat, start: Bound, end: Bound, collectAllUnsorted: bool,
                    chunk: seq<Pubkey>)
    returns (chunk': seq<Pubkey>, full: bool)
    requires Binned(bins, binner) && lo <= b < hi <= |bins| && Collected(bins, lo, b, start, end, collectAllUnsorted, chunk)
    ensures !full ==> Collected(bins, lo, b + 1, start, end, collectAllUnsorted, chunk')
    ensures full ==> !collectAllUnsorted && chunk' == Batch(Ascending(Found(bins, lo, hi, start, end)))
  {
    var items := Range(bins[b], start, end, collectAllUnsorted);
    if collectAllUnsorted {
      CollectUnsorted(bins, binner, lo, b, start, end, chunk, items);
    } else {
      CollectSorted(bins, binner, lo, b, hi, start, end, chunk, items);
    }
    chunk', full := AddBin(chunk, items, collectAllUnsorted);
  }

  /** The loop over the bins. */
  method Collect(bins: Bins, binner: Binner, lo: nat, hi: nat, start: Bound, end: Bound, collectAllUnsorted: bool)
    returns (chunk: seq<Pubkey>)
    requires Binned(bins, binner) && lo <= hi <= |bins|
    ensures !collectAllUnsorted ==> chunk == Batch(Ascending(Found(bins, lo, hi, start, end)))
    ensures collectAllUnsorted ==> Enumerates(chunk, Found(bins, lo, hi, start, end))
  {
    chunk := [];
    for b := lo to hi
      invariant Collected(bins, lo, b, start, end, collectAllUnsorted, chunk)
    {
      var full;
      chunk, full := CollectBin(bins, binner, lo, b, hi, start, end, collectAllUnsorted, chunk);
      if full {
        return;
      }
    }
    assert !collectAllUnsorted ==> Batch(chunk) == chunk;
  }

  /** Where the keys behind a start bound begin. */
  function Low(start: Bound): nat {
    match start
    case Unbounded => 0
    case Included(key) => key
    case Excluded(key) => key + 1
  }

  /** The index may change between the calls; `bins` are the keys that each bin has when it is looked at. */
  class AccountsIndexIterator {
    const binner: Binner
    var startBound: Bound
    const endBound: Bound
    var isFinished: bool
    const collectAllUnsorted: bool

    ghost predicate Valid() {
      binner.Valid() && binner.Bins() <= U64_MAX
    }

    /** The keys that are still to come, in order, if the index stays as it is. */
    ghost function Remaining(bins: Bins): seq<nat>
      reads this
    {
      if isFinished then [] else Ascending(KeysInRange(bins, startBound, endBound))
    }

    constructor (binner: Binner, start: Bound, end: Bound, collectAllUnsorted: bool)
      requires binner.Valid() && binner.Bins() <= U64_MAX
      ensures Valid() && this.collectAllUnsorted == collectAllUnsorted && this.binner == binner
      ensures endBound == end && startBound == start && !isFinished
    {
      this.binner, this.startBound, this.endBound := binner, start, end;
      this.isFinished, this.collectAllUnsorted := false, collectAllUnsorted;
    }

    /** The batch that starts at the start bound: sorted and cut, or everything in any order. */
    method Chunk(bins: Bins) returns (chunk: seq<Pubkey>)
      requires Valid() && Binned(bins, binner)
      ensures !collectAllUnsorted ==> chunk == Batch(Ascending(KeysInRange(bins, startBound, endBound)))
      ensures collectAllUnsorted ==> Enumerates(chunk, KeysInRange(bins, startBound, endBound))
    {
      var (startBin, binRange) := BinStartAndRange(binner, startBound, endBound);
      BinsLookedAtSuffice(bins, binner, startBound, endBound);
      if !startBound.Unbounded? {
        BinsAreOrderedRanges(binner, startBound.key, startBound.key);
      }
      var stop := StopBin(bins, startBin, binRange);
      chunk := Collect(bins, binner, startBin, stop, startBound, endBound, collectAllUnsorted);
    }

    /**
     The next batch. In sorted mode it is the first of the remaining keys, and the call after it goes on
     behind them; otherwise it is all of them, and the last.
     */
    method Next(bins: Bins) returns (batch: Option<seq<Pubkey>>)
      requires Valid() && Binned(bins, binner)
      modifies this
      ensures batch.None? <==> old(Remaining(bins)) == []
      ensures !collectAllUnsorted && batch.Some? ==>
                batch.value == Batch(old(Remaining(bins))) && Remaining(bins) == old(Remaining(bins))[|batch.value|..]
      ensures collectAllUnsorted && batch.Some? ==> Enumerates(batch.value, KeysInRange(bins, old(startBound), endBound))
      ensures batch.Some? ==> !old(isFinished) && batch.value != [] && startBound == Excluded(batch.value[|batch.value| - 1])
      ensures isFinished == (batch.None? || collectAllUnsorted)
    {
      if isFinished {
        return None;
      }
      var chunk := Chunk(bins);
      AscendingLists(KeysInRange(bins, startBound, endBound));
      if |chunk| == 0 {
        isFinished := true;
        SomeMember(Ascending(KeysInRange(bins, startBound, endBound)), chunk);
        return None;
      } else if collectAllUnsorted {
        isFinished := true;
        assert chunk[0] in Ascending(KeysInRange(bins, startBound, endBound));
      } else {
        RestAfterBatch(bins, startBound, endBound, |chunk|);
      }
      startBound := Excluded(chunk[|chunk| - 1]);
      batch := Some(chunk);
    }

    /** All batches of an index at rest, in sorted mode: exactly the keys in range, each once, in ascending order. */
    method CollectAll(bins: Bins) returns (all: seq<Pubkey>)
      requires Valid() && Binned(bins, binner) && !collectAllUnsorted
      modifies this
      ensures all == old(Remaining(bins)) && isFinished
      decreases |Remaining(bins)|
    {
      var batch := Next(bins);
      if batch.None? {
        all := [];
      } else {
        assert batch.value + Remaining(bins) == old(Remaining(bins));
        var rest := CollectAll(bins);
        all := batch.value + rest;
      }
    }
  }
}
