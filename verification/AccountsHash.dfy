/**
 The accounts hash: what it is, and that the merge, the hash files and the fast Merkle tree compute it.
 */
module AccountsHash {
  import opened Wrappers
  import opened Arith
  import opened Pubkeys
  import opened Merkle
  import opened Offsets
  import opened SortedSets
  import opened LatestVersions
  import opened Dedup

  datatype ZeroLamportAccounts = Excluded | Included

  const HASH_BYTES: nat := 32

  /** What one account adds to the list of hashes. */
  function HashesOf(mode: ZeroLamportAccounts, hashKey: Pubkey -> Hash, key: Pubkey, account: Account): seq<Hash> {
    if account.lamports != 0 then [account.hash]
    else if mode.Included? then [hashKey(key)]
    else []
  }

  /** The hashes of the accounts named by `keys`, in order. */
  ghost function Hashes(mode: ZeroLamportAccounts, hashKey: Pubkey -> Hash, log: seq<Item>, keys: seq<nat>): seq<Hash> {
    Flatten(seq(|keys|, i requires 0 <= i < |keys| => HashesOfKey(mode, hashKey, log, keys[i])))
  }

  ghost function HashesOfKey(mode: ZeroLamportAccounts, hashKey: Pubkey -> Hash, log: seq<Item>, k: nat): seq<Hash> {
    if k in Keys(log) && Latest(log, k).Some? then HashesOf(mode, hashKey, k, Latest(log, k).value) else []
  }

  ghost function Lamports(log: seq<Item>, keys: seq<nat>): nat {
    if keys == [] then 0 else Lamports(log, keys[..|keys| - 1]) + LamportsOfKey(log, keys[|keys| - 1])
  }

  ghost function LamportsOfKey(log: seq<Item>, k: nat): nat {
    if k in Keys(log) && Latest(log, k).Some? then Latest(log, k).value.lamports else 0
  }

  lemma HashesAppend(mode: ZeroLamportAccounts, hashKey: Pubkey -> Hash, log: seq<Item>, a: seq<nat>, b: seq<nat>)
    ensures Hashes(mode, hashKey, log, a + b) == Hashes(mode, hashKey, log, a) + Hashes(mode, hashKey, log, b)
  {
    var x := seq(|a|, i requires 0 <= i < |a| => HashesOfKey(mode, hashKey, log, a[i]));
    var y := seq(|b|, i requires 0 <= i < |b| => HashesOfKey(mode, hashKey, log, b[i]));
    assert seq(|a + b|, i requires 0 <= i < |a + b| => HashesOfKey(mode, hashKey, log, (a + b)[i])) == x + y;
    FlattenAppend(x, y);
  }

  lemma HashesOne(mode: ZeroLamportAccounts, hashKey: Pubkey -> Hash, log: seq<Item>, k: nat)
    ensures Hashes(mode, hashKey, log, [k]) == HashesOfKey(mode, hashKey, log, k)
  {
    var x := HashesOfKey(mode, hashKey, log, k);
    assert seq(1, i requires 0 <= i < 1 => HashesOfKey(mode, hashKey, log, [k][i])) == [x];
    FlattenOne(x);
  }

  lemma {:induction false} LamportsAppend(log: seq<Item>, a: seq<nat>, b: seq<nat>)
    ensures Lamports(log, a + b) == Lamports(log, a) + Lamports(log, b)
    decreases |b|
  {
    if b == [] {
      assert a + b == a;
    } else {
      LamportsAppend(log, a, b[..|b| - 1]);
      assert (a + b)[..|a + b| - 1] == a + b[..|b| - 1];
    }
  }

  lemma HashesSnoc(mode: ZeroLamportAccounts, hashKey: Pubkey -> Hash, log: seq<Item>, all: seq<nat>, n: nat)
    requires n < |all|
    ensures Hashes(mode, hashKey, log, all[..n + 1])
         == Hashes(mode, hashKey, log, all[..n]) + HashesOfKey(mode, hashKey, log, all[n])
  {
    assert all[..n + 1] == all[..n] + [all[n]];
    HashesAppend(mode, hashKey, log, all[..n], [all[n]]);
    HashesOne(mode, hashKey, log, all[n]);
  }

  lemma LamportsSnoc(log: seq<Item>, all: seq<nat>, n: nat)
    requires n < |all|
    ensures Lamports(log, all[..n + 1]) == Lamports(log, all[..n]) + LamportsOfKey(log, all[n]) <= Lamports(log, all)
  {
    assert all[..n + 1][..n] == all[..n];
    LamportsAppend(log, all[..n + 1], all[n + 1..]);
    assert all[..n + 1] + all[n + 1..] == all;
  }

  // ---------------------------------------------------------------- keys by bin

  /** The keys whose bin is in `lo..hi`. */
  ghost function KeysInBins(log: seq<Item>, bin: BinOf, lo: nat, hi: nat): set<nat> {
    if log == [] then {}
    else
      var k := log[|log| - 1].pubkey;
      KeysInBins(log[..|log| - 1], bin, lo, hi) + if lo <= bin(k) < hi then {k} else {}
  }

  lemma {:induction false} KeysInBinsMembers(log: seq<Item>, bin: BinOf, lo: nat, hi: nat)
    ensures KeysInBins(log, bin, lo, hi) == set k | k in Keys(log) && lo <= bin(k) < hi
    decreases |log|
  {
    if log != [] {
      KeysInBinsMembers(log[..|log| - 1], bin, lo, hi);
    }
  }

  lemma KeysInBinsSplit(log: seq<Item>, bin: BinOf, lo: nat, mid: nat, hi: nat)
    requires Ordered(bin) && lo <= mid <= hi
    ensures Ascending(KeysInBins(log, bin, lo, hi))
         == Ascending(KeysInBins(log, bin, lo, mid)) + Ascending(KeysInBins(log, bin, mid, hi))
  {
    KeysInBinsMembers(log, bin, lo, hi);
    KeysInBinsMembers(log, bin, lo, mid);
    KeysInBinsMembers(log, bin, mid, hi);
    var a, b := KeysInBins(log, bin, lo, mid), KeysInBins(log, bin, mid, hi);
    assert KeysInBins(log, bin, lo, hi) == a + b;
    forall x, y | x in a && y in b
      ensures x < y
    {
      assert bin(x) < bin(y) && InOrder(bin, y, x);
    }
    AscendingUnion(a, b);
  }

  /** A key of the log is at some position of some group. */
  lemma KeyHasPosition(groups: Groups, key: Pubkey) returns (p: Pointer)
    requires key in Keys(Flatten(groups))
    ensures InRange(groups, p) && Key(groups, p) == key
  {
    var g := KeyIsInGroup(groups, key);
    var i := KeyHasEntry(groups[g], key);
    p := Pointer(g, i);
  }

  lemma PositionHasKey(groups: Groups, p: Pointer)
    requires InRange(groups, p)
    ensures Key(groups, p) in Keys(Flatten(groups))
  {
    EntryHasKey(groups[p.group], p.offset);
    GroupKeysAreKeys(groups, p.group);
  }

  // ---------------------------------------------------------------- how many keys a bin can have

  function CountInBin(data: seq<Item>, b: nat, bin: BinOf): nat {
    if data == [] then 0
    else
      CountInBin(data[..|data| - 1], b, bin) + if bin(data[|data| - 1].pubkey) == b then 1 else 0
  }

  /** The count is the number of positions with an entry of the bin. */
  lemma {:induction false} CountIsPositions(data: seq<Item>, b: nat, bin: BinOf)
    ensures CountInBin(data, b, bin) == |set i | 0 <= i < |data| && bin(data[i].pubkey) == b|
    decreases |data|
  {
    if data != [] {
      var n := |data| - 1;
      CountIsPositions(data[..n], b, bin);
      var before := set i | 0 <= i < n && bin(data[..n][i].pubkey) == b;
      assert (set i | 0 <= i < |data| && bin(data[i].pubkey) == b) ==
             if bin(data[n].pubkey) == b then before + {n} else before;
    }
  }

  function CountFrom(groups: Groups, i: nat, b: nat, bin: BinOf): nat
    decreases |groups| - i
  {
    if i >= |groups| then 0 else CountInBin(groups[i], b, bin) + CountFrom(groups, i + 1, b, bin)
  }

  lemma {:induction false} CountOfRun(data: seq<Item>, b: nat, bin: BinOf, lo: nat, hi: nat)
    requires lo <= hi <= |data| && forall i :: 0 <= i < |data| ==> (bin(data[i].pubkey) == b <==> lo <= i < hi)
    ensures CountInBin(data, b, bin) == hi - lo
    decreases |data|
  {
    if data != [] {
      var last := |data| - 1;
      if hi <= last {
        CountOfRun(data[..last], b, bin, lo, hi);
      } else if lo <= last {
        CountOfRun(data[..last], b, bin, lo, last);
      } else {
        CountOfRun(data[..last], b, bin, last, last);
      }
    }
  }

  lemma {:induction false} KeysAtMostCount(data: seq<Item>, b: nat, bin: BinOf)
    ensures |KeysInBins(data, bin, b, b + 1)| <= CountInBin(data, b, bin)
    decreases |data|
  {
    if data != [] {
      KeysAtMostCount(data[..|data| - 1], b, bin);
    }
  }

  lemma KeysInBinsAppend(x: seq<Item>, y: seq<Item>, b: nat, bin: BinOf)
    ensures KeysInBins(x + y, bin, b, b + 1) == KeysInBins(x, bin, b, b + 1) + KeysInBins(y, bin, b, b + 1)
  {
    KeysAppend(x, y);
    KeysInBinsMembers(x, bin, b, b + 1);
    KeysInBinsMembers(y, bin, b, b + 1);
    KeysInBinsMembers(x + y, bin, b, b + 1);
  }

  lemma {:induction false} KeysAtMostCounts(groups: Groups, n: nat, b: nat, bin: BinOf)
    requires n <= |groups|
    ensures |KeysInBins(Flatten(groups[..n]), bin, b, b + 1)| + CountFrom(groups, n, b, bin)
         <= CountFrom(groups, 0, b, bin)
  {
    if n > 0 {
      KeysAtMostCounts(groups, n - 1, b, bin);
      FlattenSnoc(groups, n - 1);
      KeysInBinsAppend(Flatten(groups[..n - 1]), groups[n - 1], b, bin);
      KeysAtMostCount(groups[n - 1], b, bin);
      var x := KeysInBins(Flatten(groups[..n - 1]), bin, b, b + 1);
      var y := KeysInBins(groups[n - 1], bin, b, b + 1);
      assert |x + y| <= |x| + |y|;
    }
  }

  /** A bin has no more keys than it has entries in the groups. */
  lemma BinFitsCount(groups: Groups, b: nat, bin: BinOf)
    ensures |Ascending(KeysInBins(Flatten(groups), bin, b, b + 1))| <= CountFrom(groups, 0, b, bin)
  {
    AscendingLists(KeysInBins(Flatten(groups), bin, b, b + 1));
    KeysAtMostCounts(groups, |groups|, b, bin);
    assert groups[..|groups|] == groups;
  }

  // ---------------------------------------------------------------- starting the merge

  /** The groups below the ones already started: group `i` starts at its first key of the bin. */
  lemma StartGroup(groups: Groups, b: nat, bin: BinOf, ws: seq<Pointer>, i: nat, first: Option<nat>)
    requires i < |groups| && Merging(groups, b, bin, ws, None, -1, i + 1)
    requires IsFirstInBin(groups[i], b, bin, first)
    ensures Merging(groups, b, bin, ws, if first.Some? then Some(Pointer(i, first.value)) else None, -1, i)
  {
    var next := if first.Some? then Some(Pointer(i, first.value)) else None;
    forall p: Pointer | p.group >= i && Pending(groups, b, bin, -1, p)
      ensures Covered(groups, ws, next, p)
    {
      if p.group == i {
        assert bin(groups[i][p.offset].pubkey) == b;
      } else {
        assert Covered(groups, ws, None, p);
      }
    }
  }

  /** The length of the run of bin `b` that starts at `first`. */
  method CountRun(data: seq<Item>, first: nat, b: nat, bin: BinOf) returns (count: nat)
    requires SortedByBin(data, bin) && IsFirstInBin(data, b, bin, Some(first))
    ensures count == CountInBin(data, b, bin)
  {
    var next := first + 1;
    while next < |data|
      invariant first < next <= |data|
      invariant forall i :: first <= i < next ==> bin(data[i].pubkey) == b
    {
      if bin(data[next].pubkey) != b {
        break;
      }
      next := next + 1;
    }
    assert forall i :: next <= i < |data| ==> bin(data[next].pubkey) <= bin(data[i].pubkey);
    count := next - first;
    CountOfRun(data, b, bin, first, next);
  }

  lemma SortedByKeyAndBin(data: seq<Item>, bin: BinOf)
    requires SortedByKey(data) && Ordered(bin)
    ensures SortedByBin(data, bin)
  {
    forall i, j | 0 <= i <= j < |data|
      ensures bin(data[i].pubkey) <= bin(data[j].pubkey)
    {
      assert InOrder(bin, data[i].pubkey, data[j].pubkey);
    }
  }

  /** Group `i` joins the working set with its first key that no newer group is at. */
  method AddGroup(groups: Groups, i: nat, b: nat, bins: nat, bin: BinOf, working: seq<Pointer>)
    returns (ws: seq<Pointer>, count: nat)
    requires AllSorted(groups) && Ordered(bin) && b < bins && i < |groups|
    requires Merging(groups, b, bin, working, None, -1, i + 1)
    ensures Merging(groups, b, bin, ws, None, -1, i)
    ensures count == CountInBin(groups[i], b, bin)
  {
    SortedByKeyAndBin(groups[i], bin);
    var first := FindFirstPubkeyInBin(groups[i], b, bins, bin);
    StartGroup(groups, b, bin, working, i, first);
    if first.Some? {
      count := CountRun(groups[i], first.value, b, bin);
      ws := AddNextItem(Some(Pointer(i, first.value)), working, groups, b, bin, -1, i);
    } else {
      CountOfRun(groups[i], b, bin, 0, 0);
      ws, count := working, 0;
    }
  }

  /** The working set before anything is emitted, and an upper bound on the number of keys. */
  method InitializeDedupWorkingSet(groups: Groups, b: nat, bins: nat, bin: BinOf)
    returns (ws: seq<Pointer>, maxInclusiveNumPubkeys: nat)
    requires AllSorted(groups) && Ordered(bin) && b < bins
    ensures Merging(groups, b, bin, ws, None, -1, 0)
    ensures maxInclusiveNumPubkeys == CountFrom(groups, 0, b, bin)
  {
    ws, maxInclusiveNumPubkeys := [], 0;
    for i := |groups| downto 0
      invariant Merging(groups, b, bin, ws, None, -1, i)
      invariant maxInclusiveNumPubkeys == CountFrom(groups, i, b, bin)
    {
      var count;
      ws, count := AddGroup(groups, i, b, bins, bin, ws);
      maxInclusiveNumPubkeys := maxInclusiveNumPubkeys + count;
    }
  }

  // ---------------------------------------------------------------- one key at a time

  /** The keys of one bin. */
  ghost function BinKeys(groups: Groups, b: nat, bin: BinOf): set<nat> {
    KeysInBins(Flatten(groups), bin, b, b + 1)
  }

  lemma PendingIsKey(groups: Groups, b: nat, bin: BinOf, cut: int, p: Pointer)
    requires Pending(groups, b, bin, cut, p)
    ensures Key(groups, p) in BinKeys(groups, b, bin)
  {
    PositionHasKey(groups, p);
    KeysInBinsMembers(Flatten(groups), bin, b, b + 1);
  }

  lemma KeyIsPending(groups: Groups, b: nat, bin: BinOf, cut: int, k: nat) returns (p: Pointer)
    requires k in BinKeys(groups, b, bin) && k > cut
    ensures Pending(groups, b, bin, cut, p) && Key(groups, p) == k
  {
    KeysInBinsMembers(Flatten(groups), bin, b, b + 1);
    p := KeyHasPosition(groups, k);
  }

  /** The last position of the working set has the least pending key, and the newest group that holds it. */
  lemma LastIsLeast(groups: Groups, b: nat, bin: BinOf, ws: seq<Pointer>, cut: int, q: Pointer)
    requires AllSorted(groups) && WorkingSet(groups, b, bin, ws, None, cut, 0) && ws != []
    requires Pending(groups, b, bin, cut, q) && Covered(groups, ws, None, q)
    ensures var p := ws[|ws| - 1];
            KeyOf(groups, p) <= KeyOf(groups, q) && (KeyOf(groups, q) == KeyOf(groups, p) ==> q.group <= p.group)
  {
    if Answered(groups, ws, q) {
      var r :| r in ws && KeyOf(groups, r) == KeyOf(groups, q) && r.group >= q.group;
      var i :| 0 <= i < |ws| && ws[i] == r;
      assert i < |ws| - 1 ==> KeyOf(groups, ws[i]) > KeyOf(groups, ws[|ws| - 1]);
    } else {
      var r :| r in ws && r.group == q.group && r.offset <= q.offset;
      var i :| 0 <= i < |ws| && ws[i] == r;
      assert Pending(groups, b, bin, cut, ws[i]);
      assert SortedByKey(groups[q.group]);
      assert i < |ws| - 1 ==> KeyOf(groups, ws[i]) > KeyOf(groups, ws[|ws| - 1]);
    }
  }

  lemma PopKeepsWorkingSet(groups: Groups, b: nat, bin: BinOf, ws: seq<Pointer>, next: Option<Pointer>, cut: int)
    requires WorkingSet(groups, b, bin, ws, None, cut, 0) && ws != []
    requires Pending(groups, b, bin, cut, ws[|ws| - 1]) && IsNext(groups, b, bin, ws[|ws| - 1], next)
    ensures WorkingSet(groups, b, bin, ws[..|ws| - 1], next, Key(groups, ws[|ws| - 1]), 0)
  {
    var rest := ws[..|ws| - 1];
    forall i | 0 <= i < |rest|
      ensures Pending(groups, b, bin, Key(groups, ws[|ws| - 1]), rest[i])
    {
      assert rest[i] == ws[i] && KeyOf(groups, ws[i]) > KeyOf(groups, ws[|ws| - 1]);
      assert Pending(groups, b, bin, cut, ws[i]);
    }
    assert Descending(groups, rest);
    assert OnePerGroup(rest);
  }

  lemma PopKeepsCovered(groups: Groups, b: nat, bin: BinOf, ws: seq<Pointer>, next: Option<Pointer>, q: Pointer)
    requires AllSorted(groups) && ws != [] && InRange(groups, ws[|ws| - 1])
    requires InRange(groups, q) && bin(Key(groups, q)) == b && Key(groups, q) > Key(groups, ws[|ws| - 1])
    requires IsNext(groups, b, bin, ws[|ws| - 1], next) && Covered(groups, ws, None, q)
    ensures Covered(groups, ws[..|ws| - 1], next, q)
  {
    var p, rest := ws[|ws| - 1], ws[..|ws| - 1];
    assert forall r :: r in ws ==> r == p || r in rest by {
      assert ws == rest + [p];
    }
    if Answered(groups, ws, q) {
      var r :| r in ws && KeyOf(groups, r) == KeyOf(groups, q) && r.group >= q.group;
      assert r in rest;
    } else {
      var r :| r in ws && r.group == q.group && r.offset <= q.offset;
      if r == p {
        assert AheadOf(next, q);
      }
    }
  }

  lemma PopKeepsMerging(groups: Groups, b: nat, bin: BinOf, ws: seq<Pointer>, next: Option<Pointer>, cut: int)
    requires AllSorted(groups) && Merging(groups, b, bin, ws, None, cut, 0) && ws != []
    requires Pending(groups, b, bin, cut, ws[|ws| - 1]) && IsNext(groups, b, bin, ws[|ws| - 1], next)
    ensures Merging(groups, b, bin, ws[..|ws| - 1], next, Key(groups, ws[|ws| - 1]), 0)
  {
    PopKeepsWorkingSet(groups, b, bin, ws, next, cut);
    forall q: Pointer | q.group >= 0 && Pending(groups, b, bin, Key(groups, ws[|ws| - 1]), q)
      ensures Covered(groups, ws[..|ws| - 1], next, q)
    {
      assert Pending(groups, b, bin, cut, q);
      PopKeepsCovered(groups, b, bin, ws, next, q);
    }
  }

  /** The key that is popped is the next one in order. */
  lemma PoppedIsNext(groups: Groups, b: nat, bin: BinOf, ws: seq<Pointer>, cut: int, n: nat)
    requires AllSorted(groups) && Merging(groups, b, bin, ws, None, cut, 0) && ws != []
    requires Passed(BinKeys(groups, b, bin), n, cut)
    ensures Pending(groups, b, bin, cut, ws[|ws| - 1])
    ensures n < |Ascending(BinKeys(groups, b, bin))|
    ensures Ascending(BinKeys(groups, b, bin))[n] == Key(groups, ws[|ws| - 1])
    ensures Passed(BinKeys(groups, b, bin), n + 1, Key(groups, ws[|ws| - 1]))
  {
    var p := ws[|ws| - 1];
    assert Pending(groups, b, bin, cut, p);
    PendingIsKey(groups, b, bin, cut, p);
    forall x | x in BinKeys(groups, b, bin) && x > cut
      ensures Key(groups, p) <= x
    {
      var q := KeyIsPending(groups, b, bin, cut, x);
      LastIsLeast(groups, b, bin, ws, cut, q);
    }
    LeastIsNext(BinKeys(groups, b, bin), n, cut, Key(groups, p));
  }

  /** The group it is popped from holds its latest version. */
  lemma PoppedIsLatest(groups: Groups, b: nat, bin: BinOf, ws: seq<Pointer>, cut: int)
    requires AllSorted(groups) && Merging(groups, b, bin, ws, None, cut, 0) && ws != []
    requires Pending(groups, b, bin, cut, ws[|ws| - 1])
    ensures var p := ws[|ws| - 1];
            && Key(groups, p) in Keys(Flatten(groups))
            && Latest(Flatten(groups), Key(groups, p)) == Latest(groups[p.group], Key(groups, p))
  {
    var p := ws[|ws| - 1];
    var k := Key(groups, p);
    forall h | p.group < h < |groups|
      ensures Latest(groups[h], k).None?
    {
      KeysHaveLatest(groups[h], k);
      if k in Keys(groups[h]) {
        var i := KeyHasEntry(groups[h], k);
        LastIsLeast(groups, b, bin, ws, cut, Pointer(h, i));
      }
    }
    PositionHasKey(groups, p);
    EntryHasKey(groups[p.group], p.offset);
    KeysHaveLatest(groups[p.group], k);
    LatestOfGroups(groups, p.group, k);
  }

  lemma NothingPending(groups: Groups, b: nat, bin: BinOf, cut: int, n: nat)
    requires Merging(groups, b, bin, [], None, cut, 0) && Passed(BinKeys(groups, b, bin), n, cut)
    ensures n == |Ascending(BinKeys(groups, b, bin))|
  {
    forall x | x in BinKeys(groups, b, bin)
      ensures x <= cut
    {
      if x > cut {
        var q := KeyIsPending(groups, b, bin, cut, x);
        NobodyCovers(groups, q);
      }
    }
    NoneIsNext(BinKeys(groups, b, bin), n, cut);
  }

  lemma NobodyCovers(groups: Groups, q: Pointer)
    ensures !Covered(groups, [], None, q)
  {
  }

  // ---------------------------------------------------------------- one bin

  /** The file a bin writes its hashes to: created by the first write, with room for `capacity` bytes. */
  class AccountHashesFile {
    var writer: HashFile
    const capacity: nat

    constructor (capacity: nat)
      ensures writer == None && this.capacity == capacity
    {
      this.capacity := capacity;
      writer := None;
    }

    /** Creating a file needs a capacity, and a write past it would panic. */
    method Write(hash: Hash)
      requires capacity > 0 && (|Contents(writer)| + 1) * HASH_BYTES <= capacity
      modifies this
      ensures writer.Some? && Contents(writer) == old(Contents(writer)) + [hash]
    {
      if writer.None? {
        writer := Some([]);
      }
      writer := Some(writer.value + [hash]);
    }
  }

  /** Take the least key out of the working set: its latest version, and where its group goes on. */
  method PopItem(groups: Groups, b: nat, bin: BinOf, ws: seq<Pointer>, ghost n: nat, ghost cut: int)
    returns (key: Pubkey, item: Account, rest: seq<Pointer>, next: Option<Pointer>)
    requires AllSorted(groups) && Ordered(bin) && ws != []
    requires Merging(groups, b, bin, ws, None, cut, 0) && Passed(BinKeys(groups, b, bin), n, cut)
    ensures Merging(groups, b, bin, rest, next, key, 0) && Passed(BinKeys(groups, b, bin), n + 1, key)
    ensures n < |Ascending(BinKeys(groups, b, bin))| && Ascending(BinKeys(groups, b, bin))[n] == key
    ensures key in Keys(Flatten(groups)) && Latest(Flatten(groups), key) == Some(item)
  {
    var pointer := ws[|ws| - 1];
    PoppedIsNext(groups, b, bin, ws, cut, n);
    key := Key(groups, pointer);
    item, next := GetItem(groups, b, bin, pointer);
    PoppedIsLatest(groups, b, bin, ws, cut);
    PopKeepsMerging(groups, b, bin, ws, next, cut);
    rest := ws[..|ws| - 1];
  }

  /** Add the lamports of one account and write its hash, or panic when the sum does not fit. */
  method EmitItem(hashes: AccountHashesFile, sum: U64, key: Pubkey, item: Account, mode: ZeroLamportAccounts,
                  hashKey: Pubkey -> Hash)
    returns (r: Outcome<U64>)
    requires hashes.capacity > 0 && (|Contents(hashes.writer)| + 1) * HASH_BYTES <= hashes.capacity
    modifies hashes
    ensures r == if sum + item.lamports < U64_VALUES then Returned(sum + item.lamports) else Panicked
    ensures r.Returned? ==> Contents(hashes.writer) == old(Contents(hashes.writer)) + HashesOf(mode, hashKey, key, item)
    ensures r.Returned? && hashes.writer.Some? ==> old(hashes.writer).Some? || Contents(hashes.writer) != []
  {
    r := Returned(sum);
    if item.lamports != 0 {
      if item.lamports + sum >= U64_VALUES {
        return Panicked;
      }
      var total: U64 := item.lamports + sum;
      r := Returned(total);
      hashes.Write(item.hash);
    } else if mode.Included? {
      hashes.Write(hashKey(key));
    }
  }

  lemma RoomForOneMore(written: nat, n: nat, count: nat)
    requires written <= n < count
    ensures count * HASH_BYTES > 0 && (written + 1) * HASH_BYTES <= count * HASH_BYTES
  {
  }

  /** The first `n` keys of the bin have been written and summed up, and the rest is still ahead. */
  ghost predicate Progress(groups: Groups, b: nat, bin: BinOf, mode: ZeroLamportAccounts, hashKey: Pubkey -> Hash,
                           ws: seq<Pointer>, n: nat, cut: int, written: seq<Hash>, sum: nat)
  {
    && Merging(groups, b, bin, ws, None, cut, 0)
    && Passed(BinKeys(groups, b, bin), n, cut)
    && Tally(Flatten(groups), Ascending(BinKeys(groups, b, bin)), mode, hashKey, n, written, sum)
  }

  ghost predicate Tally(log: seq<Item>, keys: seq<nat>, mode: ZeroLamportAccounts,
                        hashKey: Pubkey -> Hash, n: nat, written: seq<Hash>, sum: nat)
  {
    && n <= |keys| && |written| <= n
    && written == Hashes(mode, hashKey, log, keys[..n]) && sum == Lamports(log, keys[..n])
  }

  lemma TallyNext(log: seq<Item>, keys: seq<nat>, mode: ZeroLamportAccounts, hashKey: Pubkey -> Hash,
                  n: nat, written: seq<Hash>, sum: nat)
    requires Tally(log, keys, mode, hashKey, n, written, sum) && n < |keys|
    ensures Tally(log, keys, mode, hashKey, n + 1, written + HashesOfKey(mode, hashKey, log, keys[n]),
                  sum + LamportsOfKey(log, keys[n]))
    ensures sum + LamportsOfKey(log, keys[n]) <= Lamports(log, keys)
  {
    HashesSnoc(mode, hashKey, log, keys, n);
    LamportsSnoc(log, keys, n);
  }

  /** One round of the merge: the least key is emitted and its group moves on. */
  method MergeNext(groups: Groups, b: nat, bin: BinOf, mode: ZeroLamportAccounts, hashKey: Pubkey -> Hash,
                   working: seq<Pointer>, hashes: AccountHashesFile, sum: U64, ghost n: nat, ghost n': nat,
                   ghost cut: int)
    returns (ws: seq<Pointer>, r: Outcome<U64>, ghost key: int)
    requires AllSorted(groups) && Ordered(bin) && working != [] && n' == n + 1
    requires Progress(groups, b, bin, mode, hashKey, working, n, cut, Contents(hashes.writer), sum)
    requires |Ascending(BinKeys(groups, b, bin))| * HASH_BYTES <= hashes.capacity
    modifies hashes
    ensures r.Returned? ==> Progress(groups, b, bin, mode, hashKey, ws, n', key, Contents(hashes.writer), r.value)
    ensures r.Returned? ==> n < |Ascending(BinKeys(groups, b, bin))|
    ensures r.Returned? && hashes.writer.Some? ==> old(hashes.writer).Some? || Contents(hashes.writer) != []
    ensures r.Returned? ==> |old(Contents(hashes.writer))| <= |Contents(hashes.writer)|
    ensures r.Panicked? ==> Lamports(Flatten(groups), Ascending(BinKeys(groups, b, bin))) >= U64_VALUES
  {
    var k, item, rest, next := PopItem(groups, b, bin, working, n, cut);
    key := k;
    TallyNext(Flatten(groups), Ascending(BinKeys(groups, b, bin)), mode, hashKey, n, Contents(hashes.writer), sum);
    RoomForOneMore(|Contents(hashes.writer)|, n, |Ascending(BinKeys(groups, b, bin))|);
    r := EmitItem(hashes, sum, k, item, mode, hashKey);
    ws := AddNextItem(next, rest, groups, b, bin, k, 0);
  }

  lemma StartProgress(groups: Groups, b: nat, bin: BinOf, mode: ZeroLamportAccounts, hashKey: Pubkey -> Hash,
                      ws: seq<Pointer>)
    requires Merging(groups, b, bin, ws, None, -1, 0)
    ensures Progress(groups, b, bin, mode, hashKey, ws, 0, -1, [], 0)
  {
  }

  lemma EndProgress(groups: Groups, b: nat, bin: BinOf, mode: ZeroLamportAccounts, hashKey: Pubkey -> Hash,
                    n: nat, cut: int, written: seq<Hash>, sum: nat)
    requires Progress(groups, b, bin, mode, hashKey, [], n, cut, written, sum)
    ensures var keys := Ascending(BinKeys(groups, b, bin));
            Tally(Flatten(groups), keys, mode, hashKey, |keys|, written, sum)
  {
    NothingPending(groups, b, bin, cut, n);
  }

  /** Merge until the working set is empty. */
  method MergeAll(groups: Groups, b: nat, bin: BinOf, mode: ZeroLamportAccounts, hashKey: Pubkey -> Hash,
                  working: seq<Pointer>, hashes: AccountHashesFile)
    returns (r: Outcome<U64>)
    requires AllSorted(groups) && Ordered(bin)
    requires Merging(groups, b, bin, working, None, -1, 0)
    requires hashes.writer == None && |Ascending(BinKeys(groups, b, bin))| * HASH_BYTES <= hashes.capacity
    modifies hashes
    ensures r.Returned? ==>
              Tally(Flatten(groups), Ascending(BinKeys(groups, b, bin)), mode, hashKey,
                    |Ascending(BinKeys(groups, b, bin))|, Contents(hashes.writer), r.value)
    ensures r.Panicked? ==> Lamports(Flatten(groups), Ascending(BinKeys(groups, b, bin))) >= U64_VALUES
    ensures r.Returned? && hashes.writer.Some? ==> Contents(hashes.writer) != []
  {
    var ws := working;
    var sum: U64 := 0;
    ghost var n: nat, cut: int := 0, -1;
    StartProgress(groups, b, bin, mode, hashKey, ws);
    while ws != []
      invariant Progress(groups, b, bin, mode, hashKey, ws, n, cut, Contents(hashes.writer), sum)
      invariant hashes.writer.Some? ==> Contents(hashes.writer) != []
      decreases |Ascending(BinKeys(groups, b, bin))| - n
    {
      ghost var n' := n + 1;
      ws, r, cut := MergeNext(groups, b, bin, mode, hashKey, ws, hashes, sum, n, n', cut);
      if r.Panicked? {
        return;
      }
      sum, n := r.value, n';
    }
    EndProgress(groups, b, bin, mode, hashKey, n, cut, Contents(hashes.writer), sum);
    r := Returned(sum);
  }

  lemma TallyAll(log: seq<Item>, keys: seq<nat>, mode: ZeroLamportAccounts, hashKey: Pubkey -> Hash,
                 written: seq<Hash>, sum: nat)
    requires Tally(log, keys, mode, hashKey, |keys|, written, sum)
    ensures written == Hashes(mode, hashKey, log, keys) && sum == Lamports(log, keys)
  {
    assert keys[..|keys|] == keys;
  }

  /**
   The merge of one bin. It emits every key of the bin once, in order, in its latest version; it
   panics exactly when the lamports of the bin do not fit 64 bits. Every write is within the
   capacity that was computed before the merge.
   */
  method DeDupAccountsInBin(groups: Groups, b: nat, bins: nat, bin: BinOf, mode: ZeroLamportAccounts,
                            hashKey: Pubkey -> Hash)
    returns (r: Outcome<(HashFile, U64)>)
    requires AllSorted(groups) && Ordered(bin) && b < bins
    ensures var log, keys := Flatten(groups), Ascending(BinKeys(groups, b, bin));
            if r.Returned? then
              && Contents(r.value.0) == Hashes(mode, hashKey, log, keys)
              && r.value.1 == Lamports(log, keys)
            else Lamports(log, keys) >= U64_VALUES
    ensures r.Returned? && r.value.0.Some? ==> Contents(r.value.0) != []
  {
    var ws, count := InitializeDedupWorkingSet(groups, b, bins, bin);
    BinFitsCount(groups, b, bin);
    var hashes := new AccountHashesFile(count * HASH_BYTES);
    var sum := MergeAll(groups, b, bin, mode, hashKey, ws, hashes);
    if sum.Panicked? {
      return Panicked;
    }
    TallyAll(Flatten(groups), Ascending(BinKeys(groups, b, bin)), mode, hashKey, Contents(hashes.writer), sum.value);
    r := Returned((hashes.writer, sum.value));
  }

  // ---------------------------------------------------------------- all bins

  /** How the parallel iterator cuts a range of bins: folded in one go, or in two halves that are joined. */
  datatype Split = Whole | Halves(mid: nat, left: Split, right: Split)

  lemma AllContentsAppend(a: seq<HashFile>, b: seq<HashFile>)
    ensures AllContents(a + b) == AllContents(a) + AllContents(b)
  {
    var x := seq(|a|, i requires 0 <= i < |a| => Contents(a[i]));
    var y := seq(|b|, i requires 0 <= i < |b| => Contents(b[i]));
    assert seq(|a + b|, i requires 0 <= i < |a + b| => Contents((a + b)[i])) == x + y;
    FlattenAppend(x, y);
  }

  /** The files hold the hashes of the keys of the bins `lo..hi`, in order. */
  ghost predicate Deduplicated(log: seq<Item>, bin: BinOf, mode: ZeroLamportAccounts,
                               hashKey: Pubkey -> Hash, lo: nat, hi: nat, files: seq<HashFile>, sum: nat)
  {
    && AllContents(files) == Hashes(mode, hashKey, log, Ascending(KeysInBins(log, bin, lo, hi)))
    && sum == LamportsOfBins(log, bin, lo, hi)
  }

  ghost function LamportsOfBins(log: seq<Item>, bin: BinOf, lo: nat, hi: nat): nat {
    Lamports(log, Ascending(KeysInBins(log, bin, lo, hi)))
  }

  lemma LamportsOfBinsSplit(log: seq<Item>, bin: BinOf, lo: nat, mid: nat, hi: nat)
    requires Ordered(bin) && lo <= mid <= hi
    ensures LamportsOfBins(log, bin, lo, hi)
         == LamportsOfBins(log, bin, lo, mid) + LamportsOfBins(log, bin, mid, hi)
  {
    KeysInBinsSplit(log, bin, lo, mid, hi);
    LamportsAppend(log, Ascending(KeysInBins(log, bin, lo, mid)), Ascending(KeysInBins(log, bin, mid, hi)));
  }

  /** Bins that do not fit 64 bits do not fit with more bins either. */
  lemma OverflowSpreads(log: seq<Item>, bin: BinOf, lo: nat, mid: nat, hi: nat)
    requires Ordered(bin) && lo <= mid <= hi && LamportsOfBins(log, bin, lo, mid) >= U64_VALUES
    ensures LamportsOfBins(log, bin, lo, hi) >= U64_VALUES
  {
    LamportsOfBinsSplit(log, bin, lo, mid, hi);
  }

  lemma JoinBins(log: seq<Item>, bin: BinOf, mode: ZeroLamportAccounts, hashKey: Pubkey -> Hash,
                 lo: nat, mid: nat, hi: nat, a: seq<HashFile>, x: nat, b: seq<HashFile>, y: nat)
    requires Ordered(bin) && lo <= mid <= hi
    requires Deduplicated(log, bin, mode, hashKey, lo, mid, a, x)
    requires Deduplicated(log, bin, mode, hashKey, mid, hi, b, y)
    ensures Deduplicated(log, bin, mode, hashKey, lo, hi, a + b, x + y)
  {
    KeysInBinsSplit(log, bin, lo, mid, hi);
    LamportsOfBinsSplit(log, bin, lo, mid, hi);
    HashesAppend(mode, hashKey, log, Ascending(KeysInBins(log, bin, lo, mid)),
                 Ascending(KeysInBins(log, bin, mid, hi)));
    AllContentsAppend(a, b);
  }

  lemma OneFile(file: HashFile)
    ensures AllContents([file]) == Contents(file)
  {
    var x := Contents(file);
    assert seq(1, i requires 0 <= i < 1 => Contents([file][i])) == [x];
    FlattenOne(x);
  }

  /** One bin more: its file is pushed and its lamports are added. */
  method FoldBin(groups: Groups, ghost log: seq<Item>, lo: nat, b: nat, hi: nat, bins: nat, bin: BinOf,
                 mode: ZeroLamportAccounts, hashKey: Pubkey -> Hash, files: seq<HashFile>, sum: U64)
    returns (r: Outcome<(seq<HashFile>, U64)>)
    requires AllSorted(groups) && Ordered(bin) && lo <= b < hi == b + 1 <= bins && log == Flatten(groups)
    requires Deduplicated(log, bin, mode, hashKey, lo, b, files, sum)
    ensures r.Returned? ==> Deduplicated(log, bin, mode, hashKey, lo, hi, r.value.0, r.value.1)
    ensures r.Panicked? ==> LamportsOfBins(log, bin, lo, hi) >= U64_VALUES
  {
    var one := DeDupAccountsInBin(groups, b, bins, bin, mode, hashKey);
    assert BinKeys(groups, b, bin) == KeysInBins(log, bin, b, hi);
    LamportsOfBinsSplit(log, bin, lo, b, hi);
    if one.Panicked? || sum + one.value.1 >= U64_VALUES {
      return Panicked;
    }
    var file, lamports := one.value.0, one.value.1;
    OneFile(file);
    assert Deduplicated(log, bin, mode, hashKey, b, hi, [file], lamports);
    JoinBins(log, bin, mode, hashKey, lo, b, hi, files, sum, [file], lamports);
    var total: U64 := sum + lamports;
    r := Returned((files + [file], total));
  }

  lemma NoBins(log: seq<Item>, bin: BinOf, mode: ZeroLamportAccounts, hashKey: Pubkey -> Hash, lo: nat)
    ensures Deduplicated(log, bin, mode, hashKey, lo, lo, [], 0)
  {
    KeysInBinsMembers(log, bin, lo, lo);
    assert KeysInBins(log, bin, lo, lo) == {};
  }

  /** The fold over one piece of the range. */
  method FoldBins(groups: Groups, ghost log: seq<Item>, lo: nat, hi: nat, bins: nat, bin: BinOf,
                  mode: ZeroLamportAccounts, hashKey: Pubkey -> Hash)
    returns (r: Outcome<(seq<HashFile>, U64)>)
    requires AllSorted(groups) && Ordered(bin) && lo <= hi <= bins && log == Flatten(groups)
    ensures r.Returned? ==> Deduplicated(log, bin, mode, hashKey, lo, hi, r.value.0, r.value.1)
    ensures r.Panicked? ==> LamportsOfBins(log, bin, lo, hi) >= U64_VALUES
  {
    NoBins(log, bin, mode, hashKey, lo);
    var files: seq<HashFile>, sum: U64 := [], 0;
    var b := lo;
    while b < hi
      invariant lo <= b <= hi && Deduplicated(log, bin, mode, hashKey, lo, b, files, sum)
    {
      var next := b + 1;
      r := FoldBin(groups, log, lo, b, next, bins, bin, mode, hashKey, files, sum);
      if r.Panicked? {
        OverflowSpreads(log, bin, lo, next, hi);
        return;
      }
      files, sum, b := r.value.0, r.value.1, next;
    }
    r := Returned((files, sum));
  }

  /** Fold and reduce: however the range is cut, the joined result is that of one pass. */
  method DeDupAccounts(groups: Groups, ghost log: seq<Item>, lo: nat, hi: nat, bins: nat, bin: BinOf,
                       mode: ZeroLamportAccounts, hashKey: Pubkey -> Hash, split: Split)
    returns (r: Outcome<(seq<HashFile>, U64)>)
    requires AllSorted(groups) && Ordered(bin) && lo <= hi <= bins && log == Flatten(groups)
    ensures r.Returned? ==> Deduplicated(log, bin, mode, hashKey, lo, hi, r.value.0, r.value.1)
    ensures r.Panicked? ==> LamportsOfBins(log, bin, lo, hi) >= U64_VALUES
    decreases split
  {
    match split
    case Whole =>
      r := FoldBins(groups, log, lo, hi, bins, bin, mode, hashKey);
    case Halves(at, left, right) =>
      var mid := if at < lo then lo else if at > hi then hi else at;
      var a := DeDupAccounts(groups, log, lo, mid, bins, bin, mode, hashKey, left);
      var b := DeDupAccounts(groups, log, mid, hi, bins, bin, mode, hashKey, right);
      LamportsOfBinsSplit(log, bin, lo, mid, hi);
      if a.Panicked? || b.Panicked? || a.value.1 + b.value.1 >= U64_VALUES {
        return Panicked;
      }
      JoinBins(log, bin, mode, hashKey, lo, mid, hi, a.value.0, a.value.1, b.value.0, b.value.1);
      var total: U64 := a.value.1 + b.value.1;
      r := Returned((a.value.0 + b.value.0, total));
  }

  // ---------------------------------------------------------------- end to end

  /** The accounts hash of a log of account versions: the Merkle root over the latest versions in key order. */
  ghost function HashOfAccounts(h: Hasher, mode: ZeroLamportAccounts, hashKey: Pubkey -> Hash, log: seq<Item>): Hash {
    Root(h, MERKLE_FANOUT, Hashes(mode, hashKey, log, Ascending(Keys(log))))
  }

  /** The capitalization: the lamports of the latest versions. */
  ghost function Capitalization(log: seq<Item>): nat {
    Lamports(log, Ascending(Keys(log)))
  }

  lemma AllBins(log: seq<Item>, binner: Binner, bin: BinOf)
    requires binner.Valid() && forall k: Pubkey :: bin(k) == binner.BinFromPubkey(k)
    ensures Ordered(bin)
    ensures KeysInBins(log, bin, 0, binner.Bins()) == Keys(log)
  {
    forall x: Pubkey, y: Pubkey
      ensures InOrder(bin, x, y)
    {
      BinsAreOrderedRanges(binner, x, y);
    }
    forall k: Pubkey
      ensures bin(k) < binner.Bins()
    {
      BinsAreOrderedRanges(binner, k, k);
    }
    KeysInBinsMembers(log, bin, 0, binner.Bins());
  }

  /**
   `rest_of_hash_calculation`: for any number of bins, any way the bins are spread over threads and
   any sorted groups, the result is the hash and the capitalization of the latest versions, or a panic
   when the capitalization does not fit 64 bits.
   */
  method RestOfHashCalculation(h: Hasher, groups: Groups, binner: Binner, bins: nat, mode: ZeroLamportAccounts,
                               hashKey: Pubkey -> Hash, split: Split)
    returns (r: Outcome<(Hash, U64)>)
    requires AllSorted(groups) && binner.Valid() && bins == binner.Bins()
    ensures var log := Flatten(groups);
            if r.Returned? then r.value.0 == HashOfAccounts(h, mode, hashKey, log) && r.value.1 == Capitalization(log)
            else Capitalization(log) >= U64_VALUES
  {
    var bin: BinOf := (k: Pubkey) => binner.BinFromPubkey(k);
    AllBins(Flatten(groups), binner, bin);
    var merged := DeDupAccounts(groups, Flatten(groups), 0, bins, bins, bin, mode, hashKey, split);
    if merged.Panicked? {
      return Panicked;
    }
    var readers, cumulative := FromFiles(merged.value.0);
    SliceOfProvides(readers, cumulative);
    var root, intermediate := ComputeMerkleRootFromSlices(h, Flatten(readers), cumulative.totalCount, MERKLE_FANOUT,
                                                          None, SliceOf(readers, cumulative), None);
    r := Returned((root, merged.value.1));
  }

  /**
   However the slot-ordered data is cut into pieces, and however each piece is rearranged without
   reordering the versions of a key, the accounts hash is that of the log itself.
   */
  lemma GroupingDoesNotMatter(h: Hasher, mode: ZeroLamportAccounts, hashKey: Pubkey -> Hash, log: seq<Item>,
                              pieces: Groups, groups: Groups)
    requires Flatten(pieces) == log && |pieces| == |groups|
    requires forall i :: 0 <= i < |pieces| ==> SameVersions(pieces[i], groups[i])
    ensures HashOfAccounts(h, mode, hashKey, Flatten(groups)) == HashOfAccounts(h, mode, hashKey, log)
    ensures Capitalization(Flatten(groups)) == Capitalization(log)
  {
    SameVersionsOfGroups(pieces, groups);
    SameVersionsSameLatest(log, Flatten(groups));
    SameLatestSameHashes(mode, hashKey, log, Flatten(groups), Ascending(Keys(log)));
  }

  lemma SameLatestSameHashes(mode: ZeroLamportAccounts, hashKey: Pubkey -> Hash, a: seq<Item>, b: seq<Item>,
                             keys: seq<nat>)
    requires Keys(a) == Keys(b) && forall key: Pubkey :: Latest(a, key) == Latest(b, key)
    ensures Hashes(mode, hashKey, a, keys) == Hashes(mode, hashKey, b, keys) && Lamports(a, keys) == Lamports(b, keys)
  {
    forall k: nat
      ensures HashesOfKey(mode, hashKey, a, k) == HashesOfKey(mode, hashKey, b, k)
      ensures LamportsOfKey(a, k) == LamportsOfKey(b, k)
    {
      if k in Keys(a) {
        assert Latest(a, k) == Latest(b, k);
      }
    }
    var x := seq(|keys|, i requires 0 <= i < |keys| => HashesOfKey(mode, hashKey, a, keys[i]));
    var y := seq(|keys|, i requires 0 <= i < |keys| => HashesOfKey(mode, hashKey, b, keys[i]));
    assert x == y;
    SameLamports(a, b, keys);
  }

  lemma {:induction false} SameLamports(a: seq<Item>, b: seq<Item>, keys: seq<nat>)
    requires forall k: nat :: LamportsOfKey(a, k) == LamportsOfKey(b, k)
    ensures Lamports(a, keys) == Lamports(b, keys)
    decreases |keys|
  {
    if keys != [] {
      SameLamports(a, b, keys[..|keys| - 1]);
    }
  }
}
