/** Removing older duplicates from the items that are to go into the index. */
module Duplicates {
  import opened Wrappers
  import opened Pubkeys
  import opened LatestVersions

  ghost predicate StrictlySorted<V>(s: seq<Entry<V>>) {
    forall i, j :: 0 <= i < j < |s| ==> s[i].pubkey < s[j].pubkey
  }

  ghost predicate DistinctKeys<V>(s: seq<Entry<V>>) {
    forall i, j :: 0 <= i < j < |s| ==> s[i].pubkey != s[j].pubkey
  }

  // ---------------------------------------------------------------- the stable sort

  /** Behind everything that is not greater. */
  function EntriesWith<V>(s: seq<Entry<V>>, e: Entry<V>): seq<Entry<V>> {
    if s == [] || s[|s| - 1].pubkey <= e.pubkey then s + [e]
    else EntriesWith(s[..|s| - 1], e) + [s[|s| - 1]]
  }

  function StableSorted<V>(s: seq<Entry<V>>): seq<Entry<V>> {
    if s == [] then [] else EntriesWith(StableSorted(s[..|s| - 1]), s[|s| - 1])
  }

  lemma {:induction false} InsertedIsThere<V>(s: seq<Entry<V>>, e: Entry<V>)
    ensures multiset(EntriesWith(s, e)) == multiset(s) + multiset{e}
    decreases |s|
  {
    if s != [] && s[|s| - 1].pubkey > e.pubkey {
      InsertedIsThere(s[..|s| - 1], e);
      assert s == s[..|s| - 1] + [s[|s| - 1]];
    }
  }

  lemma {:induction false} InsertedIsSorted<V>(s: seq<Entry<V>>, e: Entry<V>)
    requires SortedByKey(s)
    ensures SortedByKey(EntriesWith(s, e))
    decreases |s|
  {
    if s != [] && s[|s| - 1].pubkey > e.pubkey {
      var init, last := s[..|s| - 1], s[|s| - 1];
      InsertedIsSorted(init, e);
      InsertedIsThere(init, e);
      var front := EntriesWith(init, e);
      forall i | 0 <= i < |front|
        ensures front[i].pubkey <= last.pubkey
      {
        assert front[i] in multiset(front);
        assert front[i] in multiset(init) || front[i] == e;
      }
    }
  }

  /** The versions of each key stay in order. */
  lemma {:induction false} InsertedKeepsVersions<V>(s: seq<Entry<V>>, e: Entry<V>, key: Pubkey)
    ensures Versions(EntriesWith(s, e), key) == Versions(s + [e], key)
    decreases |s|
  {
    if s != [] && s[|s| - 1].pubkey > e.pubkey {
      var init, last := s[..|s| - 1], s[|s| - 1];
      InsertedKeepsVersions(init, e, key);
      VersionsSnoc(EntriesWith(init, e), last, key);
      VersionsSnoc(init, e, key);
      VersionsSnoc(s, e, key);
      var vs := Versions(init, key);
      assert last.pubkey != key || e.pubkey != key;
      assert vs + [] == vs;
    }
  }

  lemma VersionsSnoc<V>(s: seq<Entry<V>>, e: Entry<V>, key: Pubkey)
    ensures Versions(s + [e], key) == Versions(s, key) + if e.pubkey == key then [e.value] else []
  {
    assert (s + [e])[..|s|] == s;
  }

  /** The sort is a permutation, is sorted, and is stable. */
  lemma {:induction false} StableSortedIs<V>(s: seq<Entry<V>>)
    ensures SortedByKey(StableSorted(s)) && multiset(StableSorted(s)) == multiset(s) && |StableSorted(s)| == |s|
    ensures forall key: Pubkey :: Versions(StableSorted(s), key) == Versions(s, key)
    decreases |s|
  {
    if s != [] {
      var init, last := s[..|s| - 1], s[|s| - 1];
      StableSortedIs(init);
      var sorted := StableSorted(init);
      InsertedIsThere(sorted, last);
      InsertedIsSorted(sorted, last);
      assert s == init + [last];
      assert |multiset(EntriesWith(sorted, last))| == |EntriesWith(sorted, last)|;
      forall key: Pubkey
        ensures Versions(StableSorted(s), key) == Versions(s, key)
      {
        InsertedKeepsVersions(sorted, last, key);
        VersionsSnoc(sorted, last, key);
        VersionsSnoc(init, last, key);
      }
    }
  }

  // ---------------------------------------------------------------- what is kept

  /** Of equal neighbours, the last. */
  function KeptOf<V>(s: seq<Entry<V>>): seq<Entry<V>> {
    if s == [] then []
    else if |s| > 1 && s[1].pubkey == s[0].pubkey then KeptOf(s[1..])
    else [s[0]] + KeptOf(s[1..])
  }

  /** The others, from the end. */
  function DuplicatesOf<V>(s: seq<Entry<V>>): seq<Entry<V>> {
    if s == [] then []
    else if |s| > 1 && s[1].pubkey == s[0].pubkey then DuplicatesOf(s[1..]) + [s[0]]
    else DuplicatesOf(s[1..])
  }

  lemma {:induction false} NothingIsLost<V>(s: seq<Entry<V>>)
    ensures multiset(KeptOf(s)) + multiset(DuplicatesOf(s)) == multiset(s)
    decreases |s|
  {
    if s != [] {
      NothingIsLost(s[1..]);
      assert s == [s[0]] + s[1..];
    }
  }

  lemma {:induction false} KeptIsAscending<V>(s: seq<Entry<V>>)
    requires SortedByKey(s)
    ensures StrictlySorted(KeptOf(s)) && (s != [] ==> KeptOf(s) != [] && KeptOf(s)[0].pubkey == s[0].pubkey)
    decreases |s|
  {
    if s != [] {
      var rest := s[1..];
      KeptIsAscending(rest);
      if rest != [] && rest[0].pubkey != s[0].pubkey {
        var kept := KeptOf(rest);
        assert s[0].pubkey < rest[0].pubkey;
        assert forall i :: 0 <= i < |kept| ==> kept[0].pubkey <= kept[i].pubkey;
      }
    }
  }

  lemma {:induction false} KeptIsLatest<V>(s: seq<Entry<V>>, key: Pubkey)
    ensures Latest(KeptOf(s), key) == Latest(s, key)
    decreases |s|
  {
    if s != [] {
      var x, rest := s[0], s[1..];
      KeptIsLatest(rest, key);
      assert s == [x] + rest;
      LatestAppend([x], rest, key);
      LatestAppend([x], KeptOf(rest), key);
      if rest != [] && rest[0].pubkey == x.pubkey {
        EntryHasKey(rest, 0);
        KeysHaveLatest(rest, x.pubkey);
        assert [x][..0] == [];
      }
    }
  }

  lemma {:induction false} NoDuplicatesExactly<V>(s: seq<Entry<V>>)
    requires SortedByKey(s)
    ensures DuplicatesOf(s) == [] <==> DistinctKeys(s)
    decreases |s|
  {
    if s != [] {
      var rest := s[1..];
      NoDuplicatesExactly(rest);
      if rest != [] && rest[0].pubkey == s[0].pubkey {
        assert !DistinctKeys(s);
      } else if DuplicatesOf(s) == [] {
        forall i, j | 0 <= i < j < |s|
          ensures s[i].pubkey != s[j].pubkey
        {
          if i == 0 {
            assert s[0].pubkey < rest[0].pubkey <= rest[j - 1].pubkey;
          } else {
            assert rest[i - 1].pubkey != rest[j - 1].pubkey;
          }
        }
      } else {
        assert !DistinctKeys(rest);
      }
    }
  }

  lemma {:induction false} VersionsOfNone<V>(s: seq<Entry<V>>, key: Pubkey)
    ensures Versions(s, key) == [] <==> forall i :: 0 <= i < |s| ==> s[i].pubkey != key
    decreases |s|
  {
    if s != [] {
      VersionsOfNone(s[..|s| - 1], key);
    }
  }

  /** No key has two versions. */
  ghost predicate SingleVersions<V>(s: seq<Entry<V>>) {
    forall key: Pubkey :: |Versions(s, key)| <= 1
  }

  lemma {:induction false} DistinctIsSingle<V>(s: seq<Entry<V>>)
    ensures DistinctKeys(s) <==> SingleVersions(s)
    decreases |s|
  {
    if s != [] {
      var init, last := s[..|s| - 1], s[|s| - 1];
      DistinctIsSingle(init);
      VersionsOfNone(init, last.pubkey);
      if SingleVersions(s) {
        assert |Versions(s, last.pubkey)| <= 1;
        forall key: Pubkey
          ensures |Versions(init, key)| <= 1
        {
          assert |Versions(s, key)| <= 1;
        }
      } else if DistinctKeys(s) {
        assert DistinctKeys(init);
        forall key: Pubkey
          ensures |Versions(s, key)| <= 1
        {
          assert |Versions(init, key)| <= 1;
        }
      }
    }
  }

  // ---------------------------------------------------------------- in place

  /** How far the compaction has come: `curr` items are left to look at, and from `write` on it is done. */
  ghost predicate Compacted<V>(now: seq<Entry<V>>, sorted: seq<Entry<V>>, curr: nat, write: nat, duplicates: Option<seq<Entry<V>>>) {
    && curr <= write < |now| == |sorted| && now[..curr] == sorted[..curr]
    && now[write..] == KeptOf(sorted[curr..])
    && duplicates == (if DuplicatesOf(sorted[curr..]) == [] then None else Some(DuplicatesOf(sorted[curr..])))
  }

  lemma CompactStep<V>(now: seq<Entry<V>>, sorted: seq<Entry<V>>, curr: nat, write: nat, duplicates: Option<seq<Entry<V>>>)
    requires Compacted(now, sorted, curr, write, duplicates) && curr > 0
    ensures now[curr - 1] == sorted[curr - 1]
    ensures var item := sorted[curr - 1];
            if item.pubkey == sorted[curr].pubkey then
              Compacted(now, sorted, curr - 1, write, Some((if duplicates.Some? then duplicates.value else []) + [item]))
            else Compacted(now[write - 1 := item], sorted, curr - 1, write - 1, duplicates)
  {
    var item, rest := sorted[curr - 1], sorted[curr..];
    assert now[..curr][curr - 1] == sorted[..curr][curr - 1];
    assert sorted[curr - 1..] == [item] + rest;
    assert now[..curr - 1] == now[..curr][..curr - 1] && sorted[..curr - 1] == sorted[..curr][..curr - 1];
    assert sorted[curr - 1..][1..] == rest;
    if item.pubkey != sorted[curr].pubkey {
      var now' := now[write - 1 := item];
      assert now'[write - 1..] == [item] + now[write..];
      assert now'[..curr - 1] == now[..curr - 1];
    }
  }

  /** The loop, on items that have been sorted: what is kept ends up at the end. */
  method Compact<V>(items: array<Entry<V>>, ghost sorted: seq<Entry<V>>)
    returns (write: nat, duplicates: Option<seq<Entry<V>>>)
    requires items.Length >= 2 && items[..] == sorted
    modifies items
    ensures Compacted(items[..], sorted, 0, write, duplicates)
  {
    var n := items.Length;
    var lastKey := items[n - 1].pubkey;
    duplicates := None;
    write := n - 1;
    var curr := write;
    assert sorted[curr..] == [sorted[curr]];
    while curr > 0
      invariant Compacted(items[..], sorted, curr, write, duplicates) && lastKey == sorted[curr].pubkey
    {
      CompactStep(items[..], sorted, curr, write, duplicates);
      var item := items[curr - 1];
      if item.pubkey == lastKey {
        duplicates := Some((if duplicates.Some? then duplicates.value else []) + [item]);
        curr := curr - 1;
      } else {
        ghost var before := items[..];
        if curr < write {
          items[write - 1] := item;
        }
        assert items[..] == before[write - 1 := item];
        curr := curr - 1;
        write := write - 1;
        lastKey := item.pubkey;
      }
    }
  }

  /** What the compaction leaves, in terms of the items as they came. */
  ghost predicate Deduplicated<V>(items: seq<Entry<V>>, kept: seq<Entry<V>>, duplicates: Option<seq<Entry<V>>>) {
    && (duplicates.None? <==> DistinctKeys(items))
    && multiset(items) == multiset(kept) + multiset(if duplicates.Some? then duplicates.value else [])
    && (forall key: Pubkey :: Latest(kept, key) == Latest(items, key))
    && StrictlySorted(kept)
  }

  lemma SortedIsDeduplicated<V>(items: seq<Entry<V>>, sorted: seq<Entry<V>>)
    requires sorted == StableSorted(items)
    ensures var duplicates := DuplicatesOf(sorted);
            Deduplicated(items, KeptOf(sorted), if duplicates == [] then None else Some(duplicates))
  {
    StableSortedIs(items);
    NothingIsLost(sorted);
    KeptIsAscending(sorted);
    NoDuplicatesExactly(sorted);
    SortKeepsDistinct(items);
    forall key: Pubkey
      ensures Latest(KeptOf(sorted), key) == Latest(items, key)
    {
      SortedKeepsLatest(items, key);
    }
  }

  lemma SortKeepsDistinct<V>(items: seq<Entry<V>>)
    ensures DistinctKeys(StableSorted(items)) <==> DistinctKeys(items)
  {
    StableSortedIs(items);
    DistinctIsSingle(StableSorted(items));
    DistinctIsSingle(items);
  }

  lemma SortedKeepsLatest<V>(items: seq<Entry<V>>, key: Pubkey)
    ensures Latest(KeptOf(StableSorted(items)), key) == Latest(items, key)
  {
    var sorted := StableSorted(items);
    StableSortedIs(items);
    KeptIsLatest(sorted, key);
    LatestIsLastVersion(sorted, key);
    LatestIsLastVersion(items, key);
  }

  /** `remove_older_duplicate_pubkeys`: each key keeps its last item, and the rest is returned. */
  method RemoveOlderDuplicatePubkeys<V>(items: seq<Entry<V>>) returns (kept: seq<Entry<V>>, duplicates: Option<seq<Entry<V>>>)
    ensures Deduplicated(items, kept, duplicates)
  {
    if |items| < 2 {
      return items, None;
    }
    var sorted := StableSorted(items);
    StableSortedIs(items);
    var buffer := new Entry<V>[|sorted|](i requires 0 <= i < |sorted| => sorted[i]);
    assert buffer[..] == sorted;
    var write;
    write, duplicates := Compact(buffer, sorted);
    kept := buffer[write..];
    assert sorted[0..] == sorted;
    SortedIsDeduplicated(items, sorted);
  }
}
