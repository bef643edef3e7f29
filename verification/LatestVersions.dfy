/** A log of keyed entries, and the version of each key that a reader of the log ends up with. */
module LatestVersions {
  import opened Wrappers
  import opened Pubkeys
  import opened Offsets

  datatype Entry<+V> = Entry(pubkey: Pubkey, value: V)

  ghost predicate SortedByKey<V>(s: seq<Entry<V>>) {
    forall i, j :: 0 <= i <= j < |s| ==> s[i].pubkey <= s[j].pubkey
  }

  /** The keys of the log. */
  function Keys<V>(log: seq<Entry<V>>): set<Pubkey> {
    if log == [] then {} else Keys(log[..|log| - 1]) + {log[|log| - 1].pubkey}
  }

  /** The last version of a key. */
  function Latest<V>(log: seq<Entry<V>>, key: Pubkey): Option<V> {
    if log == [] then None
    else if log[|log| - 1].pubkey == key then Some(log[|log| - 1].value)
    else Latest(log[..|log| - 1], key)
  }

  /** All versions of a key, in order. */
  function Versions<V>(log: seq<Entry<V>>, key: Pubkey): seq<V> {
    if log == [] then []
    else
      var last := log[|log| - 1];
      Versions(log[..|log| - 1], key) + if last.pubkey == key then [last.value] else []
  }

  lemma {:induction false} KeysHaveLatest<V>(log: seq<Entry<V>>, key: Pubkey)
    ensures key in Keys(log) <==> Latest(log, key).Some?
    decreases |log|
  {
    if log != [] {
      KeysHaveLatest(log[..|log| - 1], key);
    }
  }

  /** `Latest` is the last of the versions, when there is one. */
  lemma {:induction false} LatestIsLastVersion<V>(log: seq<Entry<V>>, key: Pubkey)
    ensures var vs := Versions(log, key);
            Latest(log, key) == if vs == [] then None else Some(vs[|vs| - 1])
    decreases |log|
  {
    if log != [] {
      LatestIsLastVersion(log[..|log| - 1], key);
    }
  }

  lemma {:induction false} KeysAppend<V>(a: seq<Entry<V>>, b: seq<Entry<V>>)
    ensures Keys(a + b) == Keys(a) + Keys(b)
    decreases |b|
  {
    if b == [] {
      assert a + b == a;
    } else {
      KeysAppend(a, b[..|b| - 1]);
      assert (a + b)[..|a + b| - 1] == a + b[..|b| - 1];
    }
  }

  lemma {:induction false} LatestAppend<V>(a: seq<Entry<V>>, b: seq<Entry<V>>, key: Pubkey)
    ensures Latest(a + b, key) == if Latest(b, key).Some? then Latest(b, key) else Latest(a, key)
    decreases |b|
  {
    if b == [] {
      assert a + b == a;
    } else {
      LatestAppend(a, b[..|b| - 1], key);
      assert (a + b)[..|a + b| - 1] == a + b[..|b| - 1];
    }
  }

  lemma {:induction false} VersionsAppend<V>(a: seq<Entry<V>>, b: seq<Entry<V>>, key: Pubkey)
    ensures Versions(a + b, key) == Versions(a, key) + Versions(b, key)
    decreases |b|
  {
    if b == [] {
      assert a + b == a;
    } else {
      var b' := b[..|b| - 1];
      VersionsAppend(a, b', key);
      assert (a + b)[..|a + b| - 1] == a + b';
    }
  }

  lemma {:induction false} KeyHasEntry<V>(log: seq<Entry<V>>, key: Pubkey) returns (i: nat)
    requires key in Keys(log)
    ensures i < |log| && log[i].pubkey == key
    decreases |log|
  {
    if log[|log| - 1].pubkey == key {
      i := |log| - 1;
    } else {
      i := KeyHasEntry(log[..|log| - 1], key);
    }
  }

  lemma {:induction false} EntryHasKey<V>(log: seq<Entry<V>>, i: nat)
    requires i < |log|
    ensures log[i].pubkey in Keys(log)
    decreases |log|
  {
    if i < |log| - 1 {
      EntryHasKey(log[..|log| - 1], i);
    }
  }

  /** An entry with no later entry of its key is the latest version. */
  lemma {:induction false} LatestAt<V>(log: seq<Entry<V>>, i: nat)
    requires i < |log| && forall j :: i < j < |log| ==> log[j].pubkey != log[i].pubkey
    ensures Latest(log, log[i].pubkey) == Some(log[i].value)
    decreases |log|
  {
    var init := log[..|log| - 1];
    if i < |init| {
      LatestAt(init, i);
    }
  }

  /** Over consecutive groups, the highest group that has the key decides. */
  lemma {:induction false} LatestOfGroups<V>(groups: seq<seq<Entry<V>>>, g: nat, key: Pubkey)
    requires g < |groups| && Latest(groups[g], key).Some?
    requires forall h :: g < h < |groups| ==> Latest(groups[h], key).None?
    ensures Latest(Flatten(groups), key) == Latest(groups[g], key)
    decreases |groups|
  {
    var last := |groups| - 1;
    LatestAppend(Flatten(groups[..last]), groups[last], key);
    if g < last {
      LatestOfGroups(groups[..last], g, key);
    }
  }

  lemma {:induction false} KeyIsInGroup<V>(groups: seq<seq<Entry<V>>>, key: Pubkey) returns (g: nat)
    requires key in Keys(Flatten(groups))
    ensures g < |groups| && key in Keys(groups[g])
    decreases |groups|
  {
    var last := |groups| - 1;
    KeysAppend(Flatten(groups[..last]), groups[last]);
    if key in Keys(groups[last]) {
      g := last;
    } else {
      g := KeyIsInGroup(groups[..last], key);
    }
  }

  lemma {:induction false} GroupKeysAreKeys<V>(groups: seq<seq<Entry<V>>>, g: nat)
    requires g < |groups|
    ensures Keys(groups[g]) <= Keys(Flatten(groups))
    decreases |groups|
  {
    var last := |groups| - 1;
    KeysAppend(Flatten(groups[..last]), groups[last]);
    if g < last {
      GroupKeysAreKeys(groups[..last], g);
    }
  }

  /** `b` rearranges `a` without changing the order of the versions of any key. */
  ghost predicate SameVersions<V(!new)>(a: seq<Entry<V>>, b: seq<Entry<V>>) {
    forall key: Pubkey :: Versions(a, key) == Versions(b, key)
  }

  /** A stable rearrangement has the same keys and the same latest versions. */
  lemma SameVersionsSameLatest<V(!new)>(a: seq<Entry<V>>, b: seq<Entry<V>>)
    requires SameVersions(a, b)
    ensures Keys(a) == Keys(b)
    ensures forall key: Pubkey :: Latest(a, key) == Latest(b, key)
  {
    forall key: Pubkey
      ensures Latest(a, key) == Latest(b, key) && (key in Keys(a) <==> key in Keys(b))
    {
      LatestIsLastVersion(a, key);
      LatestIsLastVersion(b, key);
      KeysHaveLatest(a, key);
      KeysHaveLatest(b, key);
      assert Versions(a, key) == Versions(b, key);
    }
  }

  /** Rearranging consecutive pieces one by one rearranges the whole. */
  lemma {:induction false} SameVersionsOfGroups<V(!new)>(pieces: seq<seq<Entry<V>>>, groups: seq<seq<Entry<V>>>)
    requires |pieces| == |groups| && forall i :: 0 <= i < |pieces| ==> SameVersions(pieces[i], groups[i])
    ensures SameVersions(Flatten(pieces), Flatten(groups))
    decreases |pieces|
  {
    if pieces != [] {
      var last := |pieces| - 1;
      SameVersionsOfGroups(pieces[..last], groups[..last]);
      forall key: Pubkey
        ensures Versions(Flatten(pieces), key) == Versions(Flatten(groups), key)
      {
        VersionsAppend(Flatten(pieces[..last]), pieces[last], key);
        VersionsAppend(Flatten(groups[..last]), groups[last], key);
        assert SameVersions(pieces[last], groups[last]);
        assert Versions(pieces[last], key) == Versions(groups[last], key);
        assert Versions(Flatten(pieces[..last]), key) == Versions(Flatten(groups[..last]), key);
      }
    }
  }
}
