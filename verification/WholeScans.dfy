/**
 A whole scan, batch by batch, over an index that changes all the time. Each bin is looked at in a moment
 of its own, and each key of a batch is resolved in a moment of its own, later. Still a scan that ends well
 gives what the index had when it began: every key that was resolved then, with its entry, and no other.
 */
module WholeScans {
  import opened Wrappers
  import opened Arith
  import opened Pubkeys
  import opened SortedSets
  import opened SlotLists
  import opened AccountsIndexes
  import opened IndexIterators
  import opened Scans

  /** What a scan passes on: a key and the entry it is resolved to. */
  datatype Hit = Hit(key: Pubkey, entry: SlotEntry)

  /**
   The index as one call of the iterator and the loop after it meet it: `atBin[b]` when bin b is looked at,
   `atKey(i)` when the list of key i of the batch is read. A list whose key has been taken out of the index
   since then is empty, as in the moment when it was taken out.
   */
  datatype Moments = Moments(atBin: seq<Index>, atKey: nat -> Index)

  function BinKeys(ix: Index, binner: Binner, b: nat): set<Pubkey>
    requires binner.Valid()
  {
    set k | k in ix.lists && binner.BinFromPubkey(k) == b
  }

  function BinsSeen(bins: seq<Index>, binner: Binner): Bins
    requires binner.Valid()
  {
    seq(|bins|, b requires 0 <= b < |bins| => BinKeys(bins[b], binner, b))
  }

  /** No moment disturbs the scan. */
  ghost predicate Calm(scan: Scan, moments: Moments) {
    (forall ix :: ix in moments.atBin ==> Isolated(scan, ix)) && forall i: nat :: Isolated(scan, moments.atKey(i))
  }

  // ---------------------------------------------------------------- what was there when the scan began

  predicate Resolves(scan: Scan, key: Pubkey) {
    Look(scan, scan.begun, key).Some?
  }

  /** The keys in range that were resolved when the scan began. */
  ghost function Resolved(scan: Scan, start: Bound, end: Bound): set<Pubkey> {
    set k | k in scan.begun.lists && InRange(k, start, end) && Resolves(scan, k)
  }

  lemma ResolvingKeyIsThere(scan: Scan, ix: Index, key: Pubkey)
    requires Look(scan, ix, key).Some?
    ensures key in ix.lists
  {
  }

  /** The keys of a batch that are passed on. */
  ghost function Those(scan: Scan, keys: seq<Pubkey>): seq<Pubkey> {
    if keys == [] then []
    else
      var last := keys[|keys| - 1];
      Those(scan, keys[..|keys| - 1]) + if Resolves(scan, last) then [last] else []
  }

  lemma {:induction false} ThoseMembers(scan: Scan, keys: seq<Pubkey>)
    ensures forall x :: x in Those(scan, keys) <==> x in keys && Resolves(scan, x)
    decreases |keys|
  {
    if keys != [] {
      ThoseMembers(scan, keys[..|keys| - 1]);
      assert forall x :: x in keys <==> x in keys[..|keys| - 1] || x == keys[|keys| - 1];
    }
  }

  lemma {:induction false} ThoseIncrease(scan: Scan, keys: seq<Pubkey>)
    requires StrictlyIncreasing(keys)
    ensures StrictlyIncreasing(Those(scan, keys))
    decreases |keys|
  {
    if keys != [] {
      var init, last := keys[..|keys| - 1], keys[|keys| - 1];
      ThoseIncrease(scan, init);
      ThoseMembers(scan, init);
      forall i | 0 <= i < |Those(scan, init)|
        ensures Those(scan, init)[i] < last
      {
        assert Those(scan, init)[i] in init;
      }
    }
  }

  ghost predicate Different(keys: seq<Pubkey>) {
    forall i, j :: 0 <= i < j < |keys| ==> keys[i] != keys[j]
  }

  lemma DifferentSnoc(keys: seq<Pubkey>, key: Pubkey)
    requires Different(keys)
    ensures key !in keys ==> Different(keys + [key])
  {
  }

  lemma {:induction false} ThoseDiffer(scan: Scan, keys: seq<Pubkey>)
    requires Different(keys)
    ensures Different(Those(scan, keys))
    decreases |keys|
  {
    if keys != [] {
      var init, last := keys[..|keys| - 1], keys[|keys| - 1];
      ThoseDiffer(scan, init);
      ThoseMembers(scan, init);
      assert last !in init && Different(init);
      DifferentSnoc(Those(scan, init), last);
    }
  }

  // ---------------------------------------------------------------- one batch

  function KeysOf(hits: seq<Hit>): (keys: seq<Pubkey>)
    ensures |keys| == |hits|
  {
    seq(|hits|, i requires 0 <= i < |hits| => hits[i].key)
  }

  /** Every entry is the one that its key was resolved to when the scan began. */
  ghost predicate Answers(scan: Scan, hits: seq<Hit>) {
    forall h :: h in hits ==> Look(scan, scan.begun, h.key) == Some(h.entry)
  }

  /** The list of a key is locked while its latest entry is looked for, so this is one moment. */
  method ReadList(scan: Scan, ix: Index, key: Pubkey) returns (found: Option<SlotEntry>)
    ensures found == Look(scan, ix, key)
  {
    var list := ix.ListOf(key);
    var latest := LatestSlot(ix.roots, Some(scan.ancestors), list, Some(scan.maxRoot));
    LatestIsResolved(ScanView(scan, ix), list, latest);
    found := if latest.Some? then Some(list[latest.value]) else None;
  }

  /** The first `i` keys of a batch have been passed on. */
  ghost predicate PassedOn(scan: Scan, keys: seq<Pubkey>, i: nat, hits: seq<Hit>)
    requires i <= |keys|
  {
    Answers(scan, hits) && KeysOf(hits) == Those(scan, keys[..i])
  }

  lemma PassOn(scan: Scan, ix: Index, keys: seq<Pubkey>, i: nat, i': nat, hits: seq<Hit>)
    requires i' == i + 1 <= |keys| && PassedOn(scan, keys, i, hits) && Isolated(scan, ix)
    ensures var found := Look(scan, ix, keys[i]);
            PassedOn(scan, keys, i', if found.Some? then hits + [Hit(keys[i], found.value)] else hits)
  {
    assert keys[..i'][..i] == keys[..i];
    assert Look(scan, ix, keys[i]) == Look(scan, scan.begun, keys[i]);
    if Look(scan, ix, keys[i]).Some? {
      var hit := Hit(keys[i], Look(scan, ix, keys[i]).value);
      assert KeysOf(hits + [hit]) == KeysOf(hits) + [keys[i]];
    }
  }

  /** The loop over a batch. */
  method ResolveBatch(scan: Scan, keys: seq<Pubkey>, atKey: nat -> Index) returns (hits: seq<Hit>)
    ensures (forall i: nat :: Isolated(scan, atKey(i))) ==> Answers(scan, hits) && KeysOf(hits) == Those(scan, keys)
  {
    hits := [];
    ghost var calm := forall i: nat :: Isolated(scan, atKey(i));
    for i := 0 to |keys|
      invariant calm ==> PassedOn(scan, keys, i, hits)
    {
      if calm {
        PassOn(scan, atKey(i), keys, i, i + 1, hits);
      }
      var found := ReadList(scan, atKey(i), keys[i]);
      if found.Some? {
        hits := hits + [Hit(keys[i], found.value)];
      }
    }
    assert keys[..|keys|] == keys;
  }

  lemma SeenIsBinned(bins: seq<Index>, binner: Binner)
    requires binner.Valid() && |bins| == binner.Bins()
    ensures Binned(BinsSeen(bins, binner), binner)
  {
  }

  /** What was resolved at the beginning is seen in every moment. */
  lemma ResolvedIsSeen(scan: Scan, bins: seq<Index>, binner: Binner, start: Bound, end: Bound, key: Pubkey)
    requires binner.Valid() && |bins| == binner.Bins() && forall ix :: ix in bins ==> Isolated(scan, ix)
    ensures key in Resolved(scan, start, end) <==>
              key in KeysInRange(BinsSeen(bins, binner), start, end) && Resolves(scan, key)
  {
    var seen, b := BinsSeen(bins, binner), binner.BinFromPubkey(key);
    FoundMembers(seen, 0, |seen|, start, end, key);
    BinsAreOrderedRanges(binner, key, key);
    if Resolves(scan, key) {
      assert Isolated(scan, bins[b]);
      ResolvingKeyIsThere(scan, bins[b], key);
      assert key in seen[b];
    }
  }

  /** The first keys, up to the last of a batch. */
  lemma LeadingLists(m: set<nat>, n: nat)
    requires 0 < n <= |Ascending(m)|
    ensures var all := Ascending(m);
            StrictlyIncreasing(all[..n]) && forall x :: x in all[..n] <==> x in m && x <= all[n - 1]
  {
    var all := Ascending(m);
    AscendingLists(m);
    PassedRest(m, n, all[n - 1]);
    assert forall x :: x in all <==> x in all[..n] || x in all[n..];
    forall x | x in all[..n]
      ensures x <= all[n - 1]
    {
      var i :| 0 <= i < n && all[i] == x;
    }
  }

  /** Of the resolved keys, those up to the last one of a batch. */
  ghost function ResolvedUpTo(scan: Scan, start: Bound, end: Bound, last: Pubkey): set<Pubkey> {
    set k | k in Resolved(scan, start, end) && k <= last
  }

  lemma ResolvedSplit(scan: Scan, start: Bound, end: Bound, last: Pubkey)
    requires AfterStart(last, start)
    ensures Ascending(Resolved(scan, start, end)) ==
              Ascending(ResolvedUpTo(scan, start, end, last)) + Ascending(Resolved(scan, Excluded(last), end))
  {
    var done, rest := ResolvedUpTo(scan, start, end, last), Resolved(scan, Excluded(last), end);
    assert done + rest == Resolved(scan, start, end);
    AscendingUnion(done, rest);
  }

  /** A batch passes on what comes next of the resolved keys. */
  lemma BatchPassesOn(scan: Scan, bins: seq<Index>, binner: Binner, start: Bound, end: Bound, chunk: seq<Pubkey>, last: Pubkey)
    requires binner.Valid() && |bins| == binner.Bins() && forall ix :: ix in bins ==> Isolated(scan, ix)
    requires StrictlyIncreasing(chunk)
    requires forall x: Pubkey :: x in chunk <==> x in KeysInRange(BinsSeen(bins, binner), start, end) && x <= last
    ensures Those(scan, chunk) == Ascending(ResolvedUpTo(scan, start, end, last))
  {
    var done := ResolvedUpTo(scan, start, end, last);
    ThoseMembers(scan, chunk);
    ThoseIncrease(scan, chunk);
    forall x: Pubkey
      ensures x in Those(scan, chunk) <==> x in done
    {
      ResolvedIsSeen(scan, bins, binner, start, end, x);
    }
    AscendingLists(done);
    AscendingUnique(Those(scan, chunk), Ascending(done), done);
  }

  lemma BatchAdvances(scan: Scan, bins: seq<Index>, binner: Binner, start: Bound, end: Bound, chunk: seq<Pubkey>)
    requires binner.Valid() && |bins| == binner.Bins() && forall ix :: ix in bins ==> Isolated(scan, ix)
    requires chunk != [] && chunk == Batch(Ascending(KeysInRange(BinsSeen(bins, binner), start, end)))
    ensures Those(scan, chunk) + Ascending(Resolved(scan, Excluded(chunk[|chunk| - 1]), end)) ==
              Ascending(Resolved(scan, start, end))
  {
    var last := chunk[|chunk| - 1];
    LeadingLists(KeysInRange(BinsSeen(bins, binner), start, end), |chunk|);
    ListedIsInRange(BinsSeen(bins, binner), start, end, last);
    BatchPassesOn(scan, bins, binner, start, end, chunk, last);
    ResolvedSplit(scan, start, end, last);
  }

  lemma NothingLeft(scan: Scan, bins: seq<Index>, binner: Binner, start: Bound, end: Bound)
    requires binner.Valid() && |bins| == binner.Bins() && forall ix :: ix in bins ==> Isolated(scan, ix)
    requires Ascending(KeysInRange(BinsSeen(bins, binner), start, end)) == []
    ensures Resolved(scan, start, end) == {}
  {
    AscendingLists(KeysInRange(BinsSeen(bins, binner), start, end));
    forall x: Pubkey
      ensures x !in Resolved(scan, start, end)
    {
      ResolvedIsSeen(scan, bins, binner, start, end, x);
    }
  }

  // ---------------------------------------------------------------- the whole scan

  /** Exactly the resolved keys with their entries: in order, or each once in any order. */
  ghost predicate Exact(scan: Scan, start: Bound, end: Bound, collectAllUnsorted: bool, hits: seq<Hit>) {
    && Answers(scan, hits)
    && if collectAllUnsorted then Enumerates(KeysOf(hits), Resolved(scan, start, end))
       else KeysOf(hits) == Ascending(Resolved(scan, start, end))
  }

  /** What has been passed on, and what is still to come behind `from`, while the scan is not disturbed. */
  ghost predicate Partial(scan: Scan, start: Bound, end: Bound, collectAllUnsorted: bool, isFinished: bool, from: Bound,
                          hits: seq<Hit>) {
    if isFinished then Exact(scan, start, end, collectAllUnsorted, hits)
    else
      && Answers(scan, hits)
      && if collectAllUnsorted then hits == [] && from == start
         else KeysOf(hits) + Ascending(Resolved(scan, from, end)) == Ascending(Resolved(scan, start, end))
  }

  lemma AnswersAppend(scan: Scan, a: seq<Hit>, b: seq<Hit>)
    requires Answers(scan, a) && Answers(scan, b)
    ensures Answers(scan, a + b) && KeysOf(a + b) == KeysOf(a) + KeysOf(b)
  {
  }

  /** In unsorted mode, the one batch has everything. */
  lemma OneBatchIsExact(scan: Scan, bins: seq<Index>, binner: Binner, start: Bound, end: Bound, chunk: seq<Pubkey>, hits: seq<Hit>)
    requires binner.Valid() && |bins| == binner.Bins() && forall ix :: ix in bins ==> Isolated(scan, ix)
    requires Enumerates(chunk, KeysInRange(BinsSeen(bins, binner), start, end))
    requires Answers(scan, hits) && KeysOf(hits) == Those(scan, chunk)
    ensures Exact(scan, start, end, true, hits)
  {
    ThoseMembers(scan, chunk);
    ThoseDiffer(scan, chunk);
    forall x: Pubkey
      ensures x in Those(scan, chunk) <==> x in Resolved(scan, start, end)
    {
      ResolvedIsSeen(scan, bins, binner, start, end, x);
    }
  }

  /** When the iterator has nothing more, everything has been passed on. */
  lemma EmptyRound(scan: Scan, bins: seq<Index>, binner: Binner, start: Bound, end: Bound, collectAllUnsorted: bool,
                   from: Bound, hits: seq<Hit>)
    requires binner.Valid() && |bins| == binner.Bins() && forall ix :: ix in bins ==> Isolated(scan, ix)
    requires Partial(scan, start, end, collectAllUnsorted, false, from, hits)
    requires Ascending(KeysInRange(BinsSeen(bins, binner), from, end)) == []
    ensures Exact(scan, start, end, collectAllUnsorted, hits)
  {
    NothingLeft(scan, bins, binner, from, end);
    if !collectAllUnsorted {
      AscendingLists(Resolved(scan, from, end));
      assert KeysOf(hits) + [] == KeysOf(hits);
    }
  }

  lemma Joined(a: seq<nat>, b: seq<nat>, c: seq<nat>)
    ensures a + b + c == a + (b + c)
  {
  }

  lemma SortedRound(scan: Scan, bins: seq<Index>, binner: Binner, start: Bound, end: Bound, from: Bound, hits: seq<Hit>,
                    batch: seq<Pubkey>, more: seq<Hit>)
    requires binner.Valid() && |bins| == binner.Bins() && forall ix :: ix in bins ==> Isolated(scan, ix)
    requires Partial(scan, start, end, false, false, from, hits) && Answers(scan, more) && KeysOf(more) == Those(scan, batch)
    requires batch != [] && batch == Batch(Ascending(KeysInRange(BinsSeen(bins, binner), from, end)))
    ensures Partial(scan, start, end, false, false, Excluded(batch[|batch| - 1]), hits + more)
  {
    BatchAdvances(scan, bins, binner, from, end, batch);
    AnswersAppend(scan, hits, more);
    Joined(KeysOf(hits), KeysOf(more), Ascending(Resolved(scan, Excluded(batch[|batch| - 1]), end)));
  }

  /** One round of the outer loop keeps what is needed, if the index did not disturb it. */
  lemma RoundKeepsPartial(scan: Scan, bins: seq<Index>, binner: Binner, start: Bound, end: Bound, collectAllUnsorted: bool,
                          from: Bound, hits: seq<Hit>, batch: seq<Pubkey>, more: seq<Hit>)
    requires binner.Valid() && |bins| == binner.Bins() && forall ix :: ix in bins ==> Isolated(scan, ix)
    requires Partial(scan, start, end, collectAllUnsorted, false, from, hits)
    requires Answers(scan, more) && KeysOf(more) == Those(scan, batch) && batch != []
    requires if collectAllUnsorted then Enumerates(batch, KeysInRange(BinsSeen(bins, binner), from, end))
             else batch == Batch(Ascending(KeysInRange(BinsSeen(bins, binner), from, end)))
    ensures Partial(scan, start, end, collectAllUnsorted, collectAllUnsorted, Excluded(batch[|batch| - 1]), hits + more)
  {
    if collectAllUnsorted {
      assert hits + more == more;
      OneBatchIsExact(scan, bins, binner, start, end, batch, more);
    } else {
      SortedRound(scan, bins, binner, start, end, from, hits, batch, more);
    }
  }

  /** Every batch moves on. */
  lemma BatchMovesOn(bins: Bins, start: Bound, end: Bound, batch: seq<Pubkey>)
    requires batch != [] && batch == Batch(Ascending(KeysInRange(bins, start, end)))
    ensures Low(start) < Low(Excluded(batch[|batch| - 1])) <= PUBKEY_SPACE
  {
    assert batch[|batch| - 1] in Ascending(KeysInRange(bins, start, end));
    ListedIsInRange(bins, start, end, batch[|batch| - 1]);
  }

  /** One round of the outer loop. */
  method ScanBatch(scan: Scan, iter: AccountsIndexIterator, moments: Moments, ghost start: Bound, hits: seq<Hit>)
    returns (hits': seq<Hit>)
    requires iter.Valid() && |moments.atBin| == iter.binner.Bins() && !iter.isFinished
    modifies iter
    ensures iter.isFinished || Low(old(iter.startBound)) < Low(iter.startBound) <= PUBKEY_SPACE
    ensures Calm(scan, moments)
            && Partial(scan, start, iter.endBound, iter.collectAllUnsorted, false, old(iter.startBound), hits) ==>
              Partial(scan, start, iter.endBound, iter.collectAllUnsorted, iter.isFinished, iter.startBound, hits')
  {
    ghost var from, end, unsorted := iter.startBound, iter.endBound, iter.collectAllUnsorted;
    ghost var calm := Calm(scan, moments) && Partial(scan, start, end, unsorted, false, from, hits);
    SeenIsBinned(moments.atBin, iter.binner);
    var batch := iter.Next(BinsSeen(moments.atBin, iter.binner));
    if batch.None? {
      hits' := hits;
      if calm {
        EmptyRound(scan, moments.atBin, iter.binner, start, end, unsorted, from, hits);
      }
    } else {
      var more := ResolveBatch(scan, batch.value, moments.atKey);
      hits' := hits + more;
      if calm {
        RoundKeepsPartial(scan, moments.atBin, iter.binner, start, end, unsorted, from, hits, batch.value, more);
      }
      if !unsorted {
        BatchMovesOn(BinsSeen(moments.atBin, iter.binner), from, end, batch.value);
      }
    }
  }

  /** `do_scan_accounts`; `moments(n)` is for round n. */
  method DoScanAccounts(scan: Scan, binner: Binner, start: Bound, end: Bound, collectAllUnsorted: bool, moments: nat -> Moments)
    returns (hits: seq<Hit>)
    requires binner.Valid() && binner.Bins() <= U64_MAX && forall n: nat :: |moments(n).atBin| == binner.Bins()
    ensures (forall n: nat :: Calm(scan, moments(n))) ==> Exact(scan, start, end, collectAllUnsorted, hits)
  {
    var iter := new AccountsIndexIterator(binner, start, end, collectAllUnsorted);
    hits := [];
    ghost var calm := forall n: nat :: Calm(scan, moments(n));
    assert KeysOf(hits) == [] && [] + Ascending(Resolved(scan, start, end)) == Ascending(Resolved(scan, start, end));
    var n := 0;
    while !iter.isFinished
      invariant iter.Valid() && iter.binner == binner && iter.endBound == end && iter.collectAllUnsorted == collectAllUnsorted
      invariant calm ==> Partial(scan, start, end, collectAllUnsorted, iter.isFinished, iter.startBound, hits)
      decreases if iter.isFinished then 0 else 1 + PUBKEY_SPACE - Low(iter.startBound)
    {
      hits := ScanBatch(scan, iter, moments(n), start, hits);
      n := n + 1;
    }
  }

  // ---------------------------------------------------------------- in a run of the machine

  /** The index was like this after `i` steps of the run, and the scan was registered then. */
  ghost predicate MomentAt(m: Machine, steps: seq<Step>, id: ScanId, scan: Scan, ix: Index, i: nat) {
    && i <= |steps| && Run(m, steps[..i]) && id in After(m, steps[..i]).scans
    && After(m, steps[..i]).scans[id] == scan && After(m, steps[..i]).ix == ix
  }

  ghost predicate IsMoment(m: Machine, steps: seq<Step>, id: ScanId, scan: Scan, ix: Index) {
    exists i: nat :: MomentAt(m, steps, id, scan, ix, i)
  }

  /** Everything the scan reads, it reads in the course of the run. */
  ghost predicate DuringRun(m: Machine, steps: seq<Step>, id: ScanId, scan: Scan, moments: Moments) {
    && (forall ix :: ix in moments.atBin ==> IsMoment(m, steps, id, scan, ix))
    && forall i: nat :: IsMoment(m, steps, id, scan, moments.atKey(i))
  }

  /** No moment of a scan that ends well disturbs it. */
  lemma MomentIsIsolated(m: Machine, steps: seq<Step>, id: ScanId, scan: Scan, ix: Index)
    requires Inv(m) && Run(m, steps) && IsMoment(m, steps, id, scan, ix)
    requires forall i :: 0 <= i < |steps| ==> steps[i] != FinishScan(id)
    requires EndOfScan(scan, After(m, steps).ix).Ok?
    ensures Isolated(scan, ix)
  {
    var i: nat :| MomentAt(m, steps, id, scan, ix, i);
    RunSplit(m, steps, i);
    RunKeepsInv(m, steps[..i]);
    OkScanWasNeverDisturbed(After(m, steps[..i]), steps[i..], id, scan);
  }

  /**
   A whole scan in any run of the machine. If its bank has not been removed by the end, it has passed on exactly
   the keys in range that the index resolved when the scan began, each with the entry it was resolved to then.
   */
  method ScanAccounts(ghost m: Machine, ghost steps: seq<Step>, ghost id: ScanId, scan: Scan, binner: Binner,
                      start: Bound, end: Bound, collectAllUnsorted: bool, moments: nat -> Moments)
    returns (hits: seq<Hit>)
    requires binner.Valid() && binner.Bins() <= U64_MAX && forall n: nat :: |moments(n).atBin| == binner.Bins()
    requires Inv(m) && Run(m, steps) && forall i :: 0 <= i < |steps| ==> steps[i] != FinishScan(id)
    requires forall n: nat :: DuringRun(m, steps, id, scan, moments(n))
    ensures EndOfScan(scan, After(m, steps).ix).Ok? ==> Exact(scan, start, end, collectAllUnsorted, hits)
  {
    if EndOfScan(scan, After(m, steps).ix).Ok? {
      forall n: nat
        ensures Calm(scan, moments(n))
      {
        assert DuringRun(m, steps, id, scan, moments(n));
        forall ix | IsMoment(m, steps, id, scan, ix)
          ensures Isolated(scan, ix)
        {
          MomentIsIsolated(m, steps, id, scan, ix);
        }
      }
    }
    hits := DoScanAccounts(scan, binner, start, end, collectAllUnsorted, moments);
  }

  /** There is only one result in sorted order. */
  lemma SortedResultIsUnique(scan: Scan, start: Bound, end: Bound, a: seq<Hit>, b: seq<Hit>)
    requires Exact(scan, start, end, false, a) && Exact(scan, start, end, false, b)
    ensures a == b
  {
    forall i | 0 <= i < |a|
      ensures |a| == |b| && a[i] == b[i]
    {
      assert KeysOf(a)[i] == KeysOf(b)[i];
      assert a[i] in a && b[i] in b;
    }
    assert |KeysOf(a)| == |KeysOf(b)|;
  }
}
