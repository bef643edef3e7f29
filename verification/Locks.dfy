/**
 The account locks that keep two threads from changing one account at the same time. The lock tables
 are proved to be determined by the transactions that hold locks: the ghost field `held` lists them.
 */
module Locks {
  import opened Pubkeys

  /** The keys a transaction locks; a sanitized transaction names no key twice. */
  datatype TxLocks = TxLocks(writable: seq<Pubkey>, readonly: seq<Pubkey>)

  /** What a transaction asks for: its keys, or an error that was found before. */
  datatype Request = Wants(locks: TxLocks) | Invalid(error: nat)

  datatype LockResult = Ok | AccountInUse | Rejected(error: nat)

  ghost predicate Distinct(keys: seq<Pubkey>) {
    forall i, j :: 0 <= i < j < |keys| ==> keys[i] != keys[j]
  }

  ghost predicate WellFormed(tx: TxLocks) {
    Distinct(tx.writable) && Distinct(tx.readonly) && forall k :: k in tx.writable ==> k !in tx.readonly
  }

  /** Two transactions that must not run together. */
  ghost predicate Clash(a: TxLocks, b: TxLocks) {
    exists k :: (k in a.writable && (k in b.writable || k in b.readonly)) || (k in a.readonly && k in b.writable)
  }

  ghost predicate Clashes(held: seq<TxLocks>, tx: TxLocks) {
    exists h :: h in held && Clash(h, tx)
  }

  /** No two holders clash. */
  ghost predicate Compatible(held: seq<TxLocks>) {
    held == [] || (Compatible(held[..|held| - 1]) && !Clashes(held[..|held| - 1], held[|held| - 1]))
  }

  ghost predicate AllWellFormed(held: seq<TxLocks>) {
    forall h :: h in held ==> WellFormed(h)
  }

  /** Some holder writes the key. */
  ghost predicate Written(held: seq<TxLocks>, key: Pubkey) {
    exists h :: h in held && key in h.writable
  }

  /** The number of holders that read the key. */
  ghost function Readers(held: seq<TxLocks>, key: Pubkey): nat {
    if held == [] then 0
    else Readers(held[..|held| - 1], key) + if key in held[|held| - 1].readonly then 1 else 0
  }

  function CountOf(counts: map<Pubkey, nat>, key: Pubkey): nat {
    if key in counts then counts[key] else 0
  }

  /** Clashing goes both ways, and those that only read do not clash. */
  lemma ClashIsMutual(a: TxLocks, b: TxLocks)
    ensures Clash(a, b) <==> Clash(b, a)
    ensures a.writable == [] && b.writable == [] ==> !Clash(a, b)
    ensures forall k :: k in a.writable && (k in b.writable || k in b.readonly) ==> Clash(a, b)
  {
  }

  // ---------------------------------------------------------------- holders

  lemma {:induction false} ReadersAppend(a: seq<TxLocks>, b: seq<TxLocks>, key: Pubkey)
    ensures Readers(a + b, key) == Readers(a, key) + Readers(b, key)
    decreases |b|
  {
    if b == [] {
      assert a + b == a;
    } else {
      assert (a + b)[..|a + b| - 1] == a + b[..|b| - 1];
      ReadersAppend(a, b[..|b| - 1], key);
    }
  }

  lemma {:induction false} ReaderIsThere(held: seq<TxLocks>, key: Pubkey)
    ensures Readers(held, key) > 0 <==> exists h :: h in held && key in h.readonly
    decreases |held|
  {
    if held != [] {
      ReaderIsThere(held[..|held| - 1], key);
      assert held == held[..|held| - 1] + [held[|held| - 1]];
    }
  }

  ghost function Without(held: seq<TxLocks>, i: nat): seq<TxLocks>
    requires i < |held|
  {
    held[..i] + held[i + 1..]
  }

  lemma WithoutReaders(held: seq<TxLocks>, i: nat, key: Pubkey)
    requires i < |held|
    ensures Readers(held, key) == Readers(Without(held, i), key) + if key in held[i].readonly then 1 else 0
  {
    assert held == held[..i] + [held[i]] + held[i + 1..];
    ReadersAppend(held[..i] + [held[i]], held[i + 1..], key);
    ReadersAppend(held[..i], [held[i]], key);
    ReadersAppend(held[..i], held[i + 1..], key);
    assert [held[i]][..0] == [];
  }

  lemma {:induction false} CompatibleAt(held: seq<TxLocks>, i: nat, j: nat)
    requires Compatible(held) && i < j < |held|
    ensures !Clash(held[i], held[j])
    decreases |held|
  {
    var init := held[..|held| - 1];
    if j == |held| - 1 {
      assert held[i] == init[i];
    } else {
      CompatibleAt(init, i, j);
    }
  }

  lemma {:induction false} PairwiseIsCompatible(held: seq<TxLocks>)
    requires forall i, j :: 0 <= i < j < |held| ==> !Clash(held[i], held[j])
    ensures Compatible(held)
    decreases |held|
  {
    if held != [] {
      PairwiseIsCompatible(held[..|held| - 1]);
    }
  }

  lemma WithoutMembers(held: seq<TxLocks>, i: nat)
    requires i < |held|
    ensures forall h :: h in held <==> h == held[i] || h in Without(held, i)
    ensures multiset(Without(held, i)) == multiset(held) - multiset{held[i]}
  {
    assert held == held[..i] + [held[i]] + held[i + 1..];
  }

  lemma WithoutIsCompatible(held: seq<TxLocks>, i: nat)
    requires Compatible(held) && i < |held|
    ensures Compatible(Without(held, i))
  {
    var rest := Without(held, i);
    forall j, k | 0 <= j < k < |rest|
      ensures !Clash(rest[j], rest[k])
    {
      WithoutAt(held, i, j);
      WithoutAt(held, i, k);
      CompatibleAt(held, if j < i then j else j + 1, if k < i then k else k + 1);
    }
    PairwiseIsCompatible(rest);
  }

  lemma WithoutAt(held: seq<TxLocks>, i: nat, j: nat)
    requires i < |held| && j < |held| - 1
    ensures Without(held, i)[j] == held[if j < i then j else j + 1]
  {
  }

  /** What one holder writes, nobody else writes. */
  lemma WithoutWriter(held: seq<TxLocks>, i: nat, key: Pubkey)
    requires Compatible(held) && i < |held|
    ensures Written(Without(held, i), key) <==> Written(held, key) && key !in held[i].writable
  {
    var rest := Without(held, i);
    WithoutMembers(held, i);
    if Written(rest, key) {
      var h :| h in rest && key in h.writable;
      var j :| 0 <= j < |rest| && rest[j] == h;
      if j < i {
        CompatibleAt(held, j, i);
      } else {
        CompatibleAt(held, i, j + 1);
      }
    }
  }

  /** The tables depend on who holds locks, not on the order. */
  lemma {:induction false} SameHoldersSameReaders(a: seq<TxLocks>, b: seq<TxLocks>, key: Pubkey)
    requires multiset(a) == multiset(b)
    ensures Readers(a, key) == Readers(b, key)
    decreases |a|
  {
    if a == [] {
      assert |multiset(b)| == 0;
    } else {
      var init, tx := a[..|a| - 1], a[|a| - 1];
      assert a == init + [tx];
      assert tx in multiset(b);
      var j :| 0 <= j < |b| && b[j] == tx;
      WithoutMembers(b, j);
      SameHoldersSameReaders(init, Without(b, j), key);
      WithoutReaders(b, j, key);
    }
  }

  // ---------------------------------------------------------------- the tables

  ghost predicate WritesMatch(writes: set<Pubkey>, held: seq<TxLocks>) {
    forall key: Pubkey :: key in writes <==> Written(held, key)
  }

  /** The counts are those of the readers, and nothing is counted as zero. */
  ghost predicate ReadsMatch(counts: map<Pubkey, nat>, held: seq<TxLocks>) {
    NoZeros(counts) && forall key: Pubkey :: CountOf(counts, key) == Readers(held, key)
  }

  ghost predicate NoZeros(counts: map<Pubkey, nat>) {
    forall key :: key in counts ==> counts[key] > 0
  }

  /** The second table counts each of the keys once more. */
  ghost predicate OneMore(less: map<Pubkey, nat>, more: map<Pubkey, nat>, keys: seq<Pubkey>) {
    forall key: Pubkey :: CountOf(more, key) == CountOf(less, key) + if key in keys then 1 else 0
  }

  /** The clash that a refused transaction has, in terms of the tables. */
  lemma RefusedClashes(writes: set<Pubkey>, counts: map<Pubkey, nat>, held: seq<TxLocks>, tx: TxLocks, key: Pubkey)
    requires WritesMatch(writes, held) && ReadsMatch(counts, held)
    requires (key in tx.writable && (key in writes || key in counts)) || (key in tx.readonly && key in writes)
    ensures Clashes(held, tx)
  {
    ReaderIsThere(held, key);
    assert CountOf(counts, key) == Readers(held, key);
    if key in writes {
      var h :| h in held && key in h.writable;
      assert Clash(h, tx);
    } else {
      var h :| h in held && key in h.readonly;
      assert Clash(h, tx);
    }
  }

  lemma GrantedDoesNotClash(writes: set<Pubkey>, counts: map<Pubkey, nat>, held: seq<TxLocks>, tx: TxLocks)
    requires WritesMatch(writes, held) && ReadsMatch(counts, held)
    requires forall key :: key in tx.writable ==> key !in writes && key !in counts
    requires forall key :: key in tx.readonly ==> key !in writes
    ensures !Clashes(held, tx)
  {
    forall h | h in held
      ensures !Clash(h, tx)
    {
      forall key: Pubkey
        ensures key in h.writable ==> key in writes
        ensures key in h.readonly ==> key in counts
      {
        ReaderIsThere(held, key);
        assert CountOf(counts, key) == Readers(held, key);
      }
    }
  }

  lemma GrantMatches(writes: set<Pubkey>, counts: map<Pubkey, nat>, counts': map<Pubkey, nat>, held: seq<TxLocks>, tx: TxLocks)
    requires WritesMatch(writes, held) && ReadsMatch(counts, held)
    requires NoZeros(counts') && OneMore(counts, counts', tx.readonly)
    ensures WritesMatch(writes + (set k | k in tx.writable), held + [tx]) && ReadsMatch(counts', held + [tx])
  {
    assert (held + [tx])[..|held|] == held;
  }

  lemma ReleaseMatches(writes: set<Pubkey>, counts: map<Pubkey, nat>, counts': map<Pubkey, nat>, held: seq<TxLocks>, i: nat)
    requires i < |held| && Compatible(held)
    requires WritesMatch(writes, held) && ReadsMatch(counts, held)
    requires NoZeros(counts') && OneMore(counts', counts, held[i].readonly)
    ensures WritesMatch(writes - (set k | k in held[i].writable), Without(held, i)) && ReadsMatch(counts', Without(held, i))
  {
    forall key: Pubkey
      ensures Written(Without(held, i), key) <==> Written(held, key) && key !in held[i].writable
      ensures CountOf(counts', key) == Readers(Without(held, i), key)
    {
      WithoutWriter(held, i, key);
      WithoutReaders(held, i, key);
      assert CountOf(counts, key) == Readers(held, key);
    }
  }

  /** What is to be released next is still held. */
  lemma NextIsHeld(all: multiset<TxLocks>, keys: seq<TxLocks>, i: nat, held: seq<TxLocks>)
    requires i < |keys| && multiset(keys) <= all && multiset(held) == all - multiset(keys[..i])
    ensures keys[i] in held && multiset(held) - multiset{keys[i]} == all - multiset(keys[..i + 1])
  {
    assert keys == keys[..i] + [keys[i]] + keys[i + 1..];
    assert keys[..i + 1] == keys[..i] + [keys[i]];
    assert multiset(keys) == multiset(keys[..i]) + multiset{keys[i]} + multiset(keys[i + 1..]);
    assert keys[i] in multiset(held);
  }

  class AccountLocks {
    var writeLocks: set<Pubkey>
    var readonlyLocks: map<Pubkey, nat>

    /** The transactions that hold locks. */
    ghost var held: seq<TxLocks>

    /** The tables say what the holders hold. */
    ghost predicate Valid()
      reads this
    {
      && Compatible(held) && AllWellFormed(held)
      && WritesMatch(writeLocks, held) && ReadsMatch(readonlyLocks, held)
    }

    constructor ()
      ensures Valid() && held == []
    {
      writeLocks, readonlyLocks, held := {}, map[], [];
    }

    function IsLockedReadonly(key: Pubkey): bool
      reads this
    {
      key in readonlyLocks && readonlyLocks[key] > 0
    }

    function IsLockedWrite(key: Pubkey): bool
      reads this
    {
      key in writeLocks
    }

    method InsertNewReadonly(key: Pubkey)
      requires key !in readonlyLocks
      modifies this`readonlyLocks
      ensures readonlyLocks == old(readonlyLocks)[key := 1]
    {
      readonlyLocks := readonlyLocks[key := 1];
    }

    method LockReadonly(key: Pubkey) returns (found: bool)
      modifies this`readonlyLocks
      ensures found == (key in old(readonlyLocks))
      ensures readonlyLocks == if found then old(readonlyLocks)[key := old(readonlyLocks)[key] + 1] else old(readonlyLocks)
    {
      found := key in readonlyLocks;
      if found {
        readonlyLocks := readonlyLocks[key := readonlyLocks[key] + 1];
      }
    }

    /** Releases one reader; the entry goes with the last one. A key without readers stays so. */
    method UnlockReadonly(key: Pubkey)
      requires NoZeros(readonlyLocks)
      modifies this`readonlyLocks
      ensures NoZeros(readonlyLocks)
      ensures forall k: Pubkey :: CountOf(readonlyLocks, k) ==
                CountOf(old(readonlyLocks), k) - if k == key && key in old(readonlyLocks) then 1 else 0
    {
      if key in readonlyLocks {
        var count := readonlyLocks[key] - 1;
        readonlyLocks := readonlyLocks[key := count];
        if count == 0 {
          readonlyLocks := readonlyLocks - {key};
        }
      }
    }

    method UnlockWrite(key: Pubkey)
      modifies this`writeLocks
      ensures writeLocks == old(writeLocks) - {key}
    {
      writeLocks := writeLocks - {key};
    }

    /** The first loops: nothing is locked before everything has been looked at. */
    method InUse(tx: TxLocks) returns (inUse: bool)
      requires Valid()
      ensures inUse <==> Clashes(held, tx)
    {
      for i := 0 to |tx.writable|
        invariant forall k :: k in tx.writable[..i] ==> k !in writeLocks && k !in readonlyLocks
      {
        if IsLockedWrite(tx.writable[i]) || IsLockedReadonly(tx.writable[i]) {
          RefusedClashes(writeLocks, readonlyLocks, held, tx, tx.writable[i]);
          return true;
        }
      }
      for i := 0 to |tx.readonly|
        invariant forall k :: k in tx.readonly[..i] ==> k !in writeLocks
      {
        if IsLockedWrite(tx.readonly[i]) {
          RefusedClashes(writeLocks, readonlyLocks, held, tx, tx.readonly[i]);
          return true;
        }
      }
      GrantedDoesNotClash(writeLocks, readonlyLocks, held, tx);
      return false;
    }

    /** `lock_account`: granted exactly if no holder clashes; a refusal changes nothing. */
    method LockAccount(tx: TxLocks) returns (result: LockResult)
      requires Valid() && WellFormed(tx)
      modifies this
      ensures Valid()
      ensures result == if Clashes(old(held), tx) then AccountInUse else Ok
      ensures result.Ok? ==> held == old(held) + [tx]
      ensures !result.Ok? ==> held == old(held) && writeLocks == old(writeLocks) && readonlyLocks == old(readonlyLocks)
    {
      var inUse := InUse(tx);
      if inUse {
        return AccountInUse;
      }
      LockWritable(tx.writable);
      LockAllReadonly(tx.readonly);
      GrantMatches(old(writeLocks), old(readonlyLocks), readonlyLocks, held, tx);
      assert (held + [tx])[..|held|] == held;
      held := held + [tx];
      return Ok;
    }

    method LockWritable(keys: seq<Pubkey>)
      modifies this`writeLocks
      ensures writeLocks == old(writeLocks) + set k | k in keys
    {
      for i := 0 to |keys|
        invariant writeLocks == old(writeLocks) + set k | k in keys[..i]
      {
        writeLocks := writeLocks + {keys[i]};
      }
      assert keys[..|keys|] == keys;
    }

    method LockAllReadonly(keys: seq<Pubkey>)
      requires Distinct(keys) && NoZeros(readonlyLocks)
      modifies this`readonlyLocks
      ensures OneMore(old(readonlyLocks), readonlyLocks, keys) && NoZeros(readonlyLocks)
    {
      for i := 0 to |keys|
        invariant OneMore(old(readonlyLocks), readonlyLocks, keys[..i]) && NoZeros(readonlyLocks)
      {
        var found := LockReadonly(keys[i]);
        if !found {
          InsertNewReadonly(keys[i]);
        }
        assert keys[..i + 1] == keys[..i] + [keys[i]];
      }
      assert keys[..|keys|] == keys;
    }

    /** `unlock_account` of a holder: the tables are those of the others. */
    method UnlockAccount(tx: TxLocks, ghost i: nat)
      requires Valid() && i < |held| && held[i] == tx
      modifies this
      ensures Valid() && held == Without(old(held), i)
    {
      forall k | k in tx.readonly
        ensures k in readonlyLocks
      {
        ReaderIsThere(held, k);
        assert CountOf(readonlyLocks, k) == Readers(held, k);
      }
      assert WellFormed(tx);
      UnlockWritable(tx.writable);
      UnlockAllReadonly(tx.readonly);
      ReleaseMatches(old(writeLocks), old(readonlyLocks), readonlyLocks, held, i);
      WithoutIsCompatible(held, i);
      WithoutMembers(held, i);
      held := Without(held, i);
    }

    method UnlockWritable(keys: seq<Pubkey>)
      modifies this`writeLocks
      ensures writeLocks == old(writeLocks) - set k | k in keys
    {
      for i := 0 to |keys|
        invariant writeLocks == old(writeLocks) - set k | k in keys[..i]
      {
        UnlockWrite(keys[i]);
      }
      assert keys[..|keys|] == keys;
    }

    method UnlockAllReadonly(keys: seq<Pubkey>)
      requires Distinct(keys) && NoZeros(readonlyLocks) && forall k :: k in keys ==> k in readonlyLocks
      modifies this`readonlyLocks
      ensures OneMore(readonlyLocks, old(readonlyLocks), keys) && NoZeros(readonlyLocks)
    {
      for i := 0 to |keys|
        invariant OneMore(readonlyLocks, old(readonlyLocks), keys[..i]) && NoZeros(readonlyLocks)
      {
        assert CountOf(old(readonlyLocks), keys[i]) == CountOf(readonlyLocks, keys[i]);
        UnlockReadonly(keys[i]);
        assert keys[..i + 1] == keys[..i] + [keys[i]];
      }
      assert keys[..|keys|] == keys;
    }

    method LockRequest(request: Request) returns (result: LockResult)
      requires Valid() && (request.Wants? ==> WellFormed(request.locks))
      modifies this
      ensures Valid() && result == ResultOf(old(held), request) && held == HeldWith(old(held), request)
    {
      match request
      case Wants(locks) => result := LockAccount(locks);
      case Invalid(error) => result := Rejected(error);
    }

    /** `lock_accounts_inner`: each request is granted against the holders that the ones before it left. */
    method LockAccounts(requests: seq<Request>) returns (results: seq<LockResult>)
      requires Valid() && forall r :: r in requests && r.Wants? ==> WellFormed(r.locks)
      modifies this
      ensures Valid() && held == HeldAfter(old(held), requests) && results == ResultsOf(old(held), requests)
    {
      results := [];
      for i := 0 to |requests|
        invariant Valid() && held == HeldAfter(old(held), requests[..i])
        invariant results == ResultsOf(old(held), requests[..i])
      {
        assert requests[..i + 1][..i] == requests[..i];
        var result := LockRequest(requests[i]);
        results := results + [result];
      }
      assert requests[..|requests|] == requests;
    }

    /** `unlock_accounts`: releases those whose result was good. */
    method UnlockAccounts(txs: seq<TxLocks>, results: seq<LockResult>)
      requires Valid() && |txs| == |results| && multiset(GrantedOf(txs, results)) <= multiset(held)
      modifies this
      ensures Valid() && multiset(held) == old(multiset(held)) - multiset(GrantedOf(txs, results))
    {
      var keys := GrantedOf(txs, results);
      for i := 0 to |keys|
        invariant Valid() && multiset(held) == old(multiset(held)) - multiset(keys[..i])
      {
        NextIsHeld(old(multiset(held)), keys, i, held);
        ghost var j :| 0 <= j < |held| && held[j] == keys[i];
        WithoutMembers(held, j);
        UnlockAccount(keys[i], j);
      }
      assert keys[..|keys|] == keys;
    }
  }

  // ---------------------------------------------------------------- batches

  ghost function ResultOf(held: seq<TxLocks>, request: Request): LockResult {
    match request
    case Invalid(error) => Rejected(error)
    case Wants(locks) => if Clashes(held, locks) then AccountInUse else Ok
  }

  ghost function HeldWith(held: seq<TxLocks>, request: Request): seq<TxLocks> {
    if ResultOf(held, request).Ok? then held + [request.locks] else held
  }

  /** The holders after a batch of requests. */
  ghost function HeldAfter(held: seq<TxLocks>, requests: seq<Request>): seq<TxLocks> {
    if requests == [] then held
    else HeldWith(HeldAfter(held, requests[..|requests| - 1]), requests[|requests| - 1])
  }

  ghost function ResultsOf(held: seq<TxLocks>, requests: seq<Request>): (results: seq<LockResult>)
    ensures |results| == |requests|
  {
    if requests == [] then []
    else
      var init := requests[..|requests| - 1];
      ResultsOf(held, init) + [ResultOf(HeldAfter(held, init), requests[|requests| - 1])]
  }

  function GrantedOf(txs: seq<TxLocks>, results: seq<LockResult>): seq<TxLocks>
    requires |txs| == |results|
  {
    if txs == [] then []
    else
      var n := |txs| - 1;
      GrantedOf(txs[..n], results[..n]) + if results[n].Ok? then [txs[n]] else []
  }

  /** The locks that the requests of a batch are for. */
  ghost function LocksOf(requests: seq<Request>): (txs: seq<TxLocks>)
    ensures |txs| == |requests|
  {
    if requests == [] then []
    else
      var r := requests[|requests| - 1];
      LocksOf(requests[..|requests| - 1]) + [if r.Wants? then r.locks else TxLocks([], [])]
  }

  /** A batch adds the transactions that were granted, and nothing else. */
  lemma {:induction false} BatchAddsTheGranted(held: seq<TxLocks>, requests: seq<Request>)
    ensures HeldAfter(held, requests) == held + GrantedOf(LocksOf(requests), ResultsOf(held, requests))
    decreases |requests|
  {
    var n := |requests|;
    if n == 0 {
      assert held + [] == held;
    } else {
      var init := requests[..n - 1];
      BatchAddsTheGranted(held, init);
      assert LocksOf(requests)[..n - 1] == LocksOf(init);
      assert ResultsOf(held, requests)[..n - 1] == ResultsOf(held, init);
    }
  }

  lemma {:induction false} ResultAt(held: seq<TxLocks>, requests: seq<Request>, i: nat)
    requires i < |requests|
    ensures ResultsOf(held, requests)[i] == ResultOf(HeldAfter(held, requests[..i]), requests[i])
    decreases |requests|
  {
    if i < |requests| - 1 {
      assert requests[..|requests| - 1][..i] == requests[..i];
      ResultAt(held, requests[..|requests| - 1], i);
    }
  }

  /** Holders only come in during a batch, so what refused a request still holds its locks at the end. */
  lemma {:induction false} HoldersStay(held: seq<TxLocks>, requests: seq<Request>, i: nat)
    requires i <= |requests|
    ensures HeldAfter(held, requests[..i]) <= HeldAfter(held, requests)
    decreases |requests|
  {
    if i == |requests| {
      assert requests[..i] == requests;
    } else {
      assert requests[..|requests| - 1][..i] == requests[..i];
      HoldersStay(held, requests[..|requests| - 1], i);
    }
  }

  /** Invalid requests get their own error, and only they do; they lock nothing. */
  lemma InvalidIsRejected(held: seq<TxLocks>, requests: seq<Request>, i: nat, error: nat)
    requires i < |requests|
    ensures ResultsOf(held, requests)[i] == Rejected(error) <==> requests[i] == Invalid(error)
  {
    ResultAt(held, requests, i);
  }

  lemma RefusedForAReason(held: seq<TxLocks>, requests: seq<Request>, i: nat)
    requires i < |requests| && ResultsOf(held, requests)[i] == AccountInUse
    ensures requests[i].Wants? && Clashes(HeldAfter(held, requests), requests[i].locks)
  {
    HoldersStay(held, requests, i);
    ResultAt(held, requests, i);
    var h :| h in HeldAfter(held, requests[..i]) && Clash(h, requests[i].locks);
    assert h in HeldAfter(held, requests);
  }

  /** Releasing what a batch was granted leaves the holders from before. */
  lemma ReleasedBatchLeavesTheRest(held: seq<TxLocks>, requests: seq<Request>)
    ensures var granted := multiset(GrantedOf(LocksOf(requests), ResultsOf(held, requests)));
            && granted <= multiset(HeldAfter(held, requests))
            && multiset(HeldAfter(held, requests)) - granted == multiset(held)
  {
    BatchAddsTheGranted(held, requests);
  }

  /** The holders determine the tables, whatever the order of locks and releases that led there. */
  lemma HoldersDetermineTables(writes: set<Pubkey>, counts: map<Pubkey, nat>, held: seq<TxLocks>,
                               writes': set<Pubkey>, counts': map<Pubkey, nat>, held': seq<TxLocks>)
    requires WritesMatch(writes, held) && ReadsMatch(counts, held)
    requires WritesMatch(writes', held') && ReadsMatch(counts', held')
    requires multiset(held) == multiset(held')
    ensures writes == writes' && counts == counts'
  {
    forall key: Pubkey
      ensures key in writes <==> key in writes'
      ensures CountOf(counts, key) == CountOf(counts', key)
    {
      assert forall h :: h in held <==> h in multiset(held);
      assert forall h :: h in held' <==> h in multiset(held');
      SameHoldersSameReaders(held, held', key);
    }
    forall key: Pubkey
      ensures key in counts <==> key in counts'
      ensures key in counts ==> counts[key] == counts'[key]
    {
      assert CountOf(counts, key) == CountOf(counts', key);
    }
  }

  lemma NoHoldersNoLocks(writes: set<Pubkey>, counts: map<Pubkey, nat>)
    requires WritesMatch(writes, []) && ReadsMatch(counts, [])
    ensures writes == {} && counts == map[]
  {
    forall key: Pubkey
      ensures key !in writes && key !in counts
    {
      assert CountOf(counts, key) == 0;
    }
  }

  /** A key that is written has one writer and no reader. */
  lemma WritersAreAlone(writes: set<Pubkey>, counts: map<Pubkey, nat>, held: seq<TxLocks>, key: Pubkey, i: nat)
    requires Compatible(held) && AllWellFormed(held) && WritesMatch(writes, held) && ReadsMatch(counts, held)
    requires i < |held| && key in held[i].writable
    ensures key in writes && key !in counts
    ensures forall j :: 0 <= j < |held| && j != i ==> key !in held[j].writable && key !in held[j].readonly
  {
    assert held[i] in held;
    forall j | 0 <= j < |held| && j != i
      ensures key !in held[j].writable && key !in held[j].readonly
    {
      if i < j {
        CompatibleAt(held, i, j);
      } else {
        CompatibleAt(held, j, i);
      }
    }
    assert key !in held[i].readonly;
    ReaderIsThere(held, key);
    assert CountOf(counts, key) == Readers(held, key);
  }
}
