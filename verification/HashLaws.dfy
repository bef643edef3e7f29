/** What goes into the accounts hash and the capitalization, account by account, apart from how it is computed. */
module HashLaws {
  import opened Wrappers
  import opened Pubkeys
  import opened Merkle
  import opened SortedSets
  import opened LatestVersions
  import opened Dedup
  import opened AccountsHash

  /** The last version of the key has lamports. */
  ghost predicate Funded(log: seq<Item>, key: Pubkey) {
    Latest(log, key).Some? && Latest(log, key).value.lamports > 0
  }

  ghost function FundedKeys(log: seq<Item>): set<Pubkey> {
    set key | key in Keys(log) && Funded(log, key)
  }

  /** Keys from the least to the greatest. */
  ghost function KeysInOrder(keys: set<Pubkey>): (s: seq<Pubkey>)
    ensures s == Ascending(keys) && StrictlyIncreasing(s) && forall k: Pubkey :: k in s <==> k in keys
  {
    AscendingLists(keys);
    assert forall i :: 0 <= i < |Ascending(keys)| ==> Ascending(keys)[i] in Ascending(keys);
    Ascending(keys)
  }

  // ---------------------------------------------------------------- accounts without lamports included

  /** One hash per key: that of its last version, or that of the key itself if it has no lamports. */
  ghost predicate HashPerKey(hashKey: Pubkey -> Hash, log: seq<Item>, keys: seq<Pubkey>, hashes: seq<Hash>) {
    && |hashes| == |keys|
    && (forall i :: 0 <= i < |keys| ==> Latest(log, keys[i]).Some?)
    && forall i :: 0 <= i < |keys| ==>
         var last := Latest(log, keys[i]).value;
         hashes[i] == if last.lamports == 0 then hashKey(keys[i]) else last.hash
  }

  lemma {:induction false} IncludedHashes(hashKey: Pubkey -> Hash, log: seq<Item>, keys: seq<Pubkey>)
    requires forall k :: k in keys ==> k in Keys(log)
    ensures HashPerKey(hashKey, log, keys, Hashes(Included, hashKey, log, keys))
    decreases |keys|
  {
    if keys != [] {
      var n := |keys| - 1;
      assert keys == keys[..n + 1] && keys[n] in keys;
      IncludedHashes(hashKey, log, keys[..n]);
      HashesSnoc(Included, hashKey, log, keys, n);
      KeysHaveLatest(log, keys[n]);
    }
  }

  // ---------------------------------------------------------------- accounts without lamports excluded

  /** The keys with lamports among these. */
  ghost function FundedOf(log: seq<Item>, keys: seq<Pubkey>): seq<Pubkey> {
    if keys == [] then []
    else
      var last := keys[|keys| - 1];
      FundedOf(log, keys[..|keys| - 1]) + if Funded(log, last) then [last] else []
  }

  lemma {:induction false} FundedOfLists(log: seq<Item>, keys: seq<Pubkey>)
    requires StrictlyIncreasing(keys)
    ensures StrictlyIncreasing(FundedOf(log, keys))
    ensures forall k: Pubkey :: k in FundedOf(log, keys) <==> k in keys && Funded(log, k)
    decreases |keys|
  {
    if keys != [] {
      var init, last := keys[..|keys| - 1], keys[|keys| - 1];
      FundedOfLists(log, init);
      assert keys == init + [last];
      forall i | 0 <= i < |FundedOf(log, init)|
        ensures FundedOf(log, init)[i] < last
      {
        assert FundedOf(log, init)[i] in init;
      }
    }
  }

  lemma FundedInOrder(log: seq<Item>)
    ensures FundedOf(log, KeysInOrder(Keys(log))) == KeysInOrder(FundedKeys(log))
  {
    var all, funded := KeysInOrder(Keys(log)), KeysInOrder(FundedKeys(log));
    FundedOfLists(log, all);
    AscendingUnique(FundedOf(log, all), funded, FundedKeys(log));
  }

  /** The hashes of the last versions of these keys. */
  ghost predicate HashOfEach(log: seq<Item>, keys: seq<Pubkey>, hashes: seq<Hash>) {
    && |hashes| == |keys|
    && forall i :: 0 <= i < |keys| ==> Latest(log, keys[i]).Some? && hashes[i] == Latest(log, keys[i]).value.hash
  }

  lemma {:induction false} ExcludedHashes(hashKey: Pubkey -> Hash, log: seq<Item>, keys: seq<Pubkey>)
    requires forall k :: k in keys ==> k in Keys(log)
    ensures HashOfEach(log, FundedOf(log, keys), Hashes(Excluded, hashKey, log, keys))
    decreases |keys|
  {
    if keys != [] {
      var n := |keys| - 1;
      assert keys == keys[..n + 1] && keys[n] in keys;
      ExcludedHashes(hashKey, log, keys[..n]);
      HashesSnoc(Excluded, hashKey, log, keys, n);
      KeysHaveLatest(log, keys[n]);
    }
  }

  // ---------------------------------------------------------------- the accounts hash

  /**
   With accounts without lamports included, the tree is over one hash per key, in key order: the hash of
   its last version, or of the key itself for an account without lamports.
   */
  lemma IncludedHashIs(h: Hasher, hashKey: Pubkey -> Hash, log: seq<Item>) returns (hashes: seq<Hash>)
    ensures HashPerKey(hashKey, log, KeysInOrder(Keys(log)), hashes)
    ensures HashOfAccounts(h, Included, hashKey, log) == Root(h, MERKLE_FANOUT, hashes)
  {
    hashes := Hashes(Included, hashKey, log, Ascending(Keys(log)));
    IncludedHashes(hashKey, log, KeysInOrder(Keys(log)));
  }

  /** With them excluded, it is over the hash of the last version of each key with lamports, in key order. */
  lemma ExcludedHashIs(h: Hasher, hashKey: Pubkey -> Hash, log: seq<Item>) returns (hashes: seq<Hash>)
    ensures HashOfEach(log, KeysInOrder(FundedKeys(log)), hashes)
    ensures HashOfAccounts(h, Excluded, hashKey, log) == Root(h, MERKLE_FANOUT, hashes)
  {
    FundedInOrder(log);
    hashes := Hashes(Excluded, hashKey, log, Ascending(Keys(log)));
    ExcludedHashes(hashKey, log, KeysInOrder(Keys(log)));
  }

  /** The entries of these keys. */
  function Only(log: seq<Item>, keys: set<Pubkey>): seq<Item> {
    if log == [] then []
    else
      var last := log[|log| - 1];
      Only(log[..|log| - 1], keys) + if last.pubkey in keys then [last] else []
  }

  lemma {:induction false} LatestOnly(log: seq<Item>, keys: set<Pubkey>, key: Pubkey)
    ensures Latest(Only(log, keys), key) == if key in keys then Latest(log, key) else None
    decreases |log|
  {
    if log != [] {
      var init, last := log[..|log| - 1], log[|log| - 1];
      LatestOnly(init, keys, key);
      assert Only(init, keys) + [] == Only(init, keys);
      assert (Only(init, keys) + [last])[..|Only(init, keys)|] == Only(init, keys);
    }
  }

  /** The same accounts with lamports. */
  lemma SameFunded(log: seq<Item>)
    ensures var rest := Only(log, FundedKeys(log));
            FundedKeys(rest) == FundedKeys(log) && forall k :: k in FundedKeys(log) ==> Latest(rest, k) == Latest(log, k)
  {
    var rest := Only(log, FundedKeys(log));
    forall k: Pubkey
      ensures Latest(rest, k) == if k in FundedKeys(log) then Latest(log, k) else None
      ensures k in FundedKeys(rest) <==> k in FundedKeys(log)
    {
      LatestOnly(log, FundedKeys(log), k);
      KeysHaveLatest(log, k);
      KeysHaveLatest(rest, k);
    }
  }

  lemma SameHashOfEach(log: seq<Item>, log': seq<Item>, keys: seq<Pubkey>, a: seq<Hash>, b: seq<Hash>)
    requires HashOfEach(log, keys, a) && HashOfEach(log', keys, b)
    requires forall k :: k in keys ==> Latest(log, k) == Latest(log', k)
    ensures a == b
  {
    forall i | 0 <= i < |keys|
      ensures a[i] == b[i]
    {
      assert keys[i] in keys;
    }
  }

  /** Excluded accounts leave no trace: neither they nor the hash of their keys matter. */
  lemma ExcludedLeaveNoTrace(h: Hasher, hashKey: Pubkey -> Hash, hashKey': Pubkey -> Hash, log: seq<Item>)
    ensures HashOfAccounts(h, Excluded, hashKey, log) == HashOfAccounts(h, Excluded, hashKey', Only(log, FundedKeys(log)))
  {
    var rest := Only(log, FundedKeys(log));
    var a := ExcludedHashIs(h, hashKey, log);
    var b := ExcludedHashIs(h, hashKey', rest);
    SameFunded(log);
    SameHashOfEach(log, rest, KeysInOrder(FundedKeys(log)), a, b);
  }

  // ---------------------------------------------------------------- capitalization

  /** The lamports of a key. */
  ghost function Balance(log: seq<Item>, key: Pubkey): nat {
    if Latest(log, key).Some? then Latest(log, key).value.lamports else 0
  }

  lemma {:induction false} LamportsAgree(log: seq<Item>, log': seq<Item>, keys: seq<nat>)
    requires forall k :: k in keys ==> LamportsOfKey(log, k) == LamportsOfKey(log', k)
    ensures Lamports(log, keys) == Lamports(log', keys)
    decreases |keys|
  {
    if keys != [] {
      assert keys[|keys| - 1] in keys;
      LamportsAgree(log, log', keys[..|keys| - 1]);
    }
  }

  /** The lamports of some keys are those of one of them and of the others. */
  lemma LamportsWithout(log: seq<Item>, keys: set<nat>, key: nat)
    requires key in keys
    ensures Lamports(log, Ascending(keys)) == Lamports(log, Ascending(keys - {key})) + LamportsOfKey(log, key)
  {
    var below, above := set k | k in keys && k < key, set k | k in keys && k > key;
    assert keys == below + ({key} + above) && keys - {key} == below + above;
    AscendingUnion(below, {key} + above);
    AscendingUnion({key}, above);
    AscendingUnion(below, above);
    AscendingOne(key);
    LamportsAppend(log, Ascending(below), [key] + Ascending(above));
    LamportsAppend(log, [key], Ascending(above));
    LamportsAppend(log, Ascending(below), Ascending(above));
    LamportsOne(log, key);
  }

  lemma AscendingOne(key: nat)
    ensures Ascending({key}) == [key]
  {
    AscendingLists({key});
    assert Ascending({key})[0] in Ascending({key});
  }

  lemma LamportsOne(log: seq<Item>, key: nat)
    ensures Lamports(log, [key]) == LamportsOfKey(log, key)
  {
    assert [key][..0] == [];
  }

  lemma BalanceIs(log: seq<Item>, key: Pubkey)
    ensures LamportsOfKey(log, key) == Balance(log, key)
  {
    KeysHaveLatest(log, key);
  }

  /** Storing an account changes the capitalization by the change of its balance; without accounts there is none. */
  lemma CapitalizationMoves(log: seq<Item>, item: Item)
    ensures Capitalization([]) == 0
    ensures Capitalization(log + [item]) + Balance(log, item.pubkey) == Capitalization(log) + item.value.lamports
  {
    var log', key := log + [item], item.pubkey;
    assert log'[..|log|] == log;
    assert Keys(log') == Keys(log) + {key};
    var others: set<nat> := Keys(log) - {key};
    AscendingLists(others);
    forall k | k in Ascending(others)
      ensures LamportsOfKey(log', k) == LamportsOfKey(log, k)
    {
      assert k in others;
    }
    LamportsAgree(log, log', Ascending(others));
    BalanceIs(log, key);
    BalanceIs(log', key);
    assert Keys(log') - {key} == others;
    LamportsWithout(log', Keys(log'), key);
    if key in Keys(log) {
      LamportsWithout(log, Keys(log), key);
    } else {
      assert others == Keys(log);
    }
    AscendingLists({});
  }
}
