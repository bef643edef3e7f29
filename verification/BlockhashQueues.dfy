/**
 The queue of recent block hashes. The ghost field `log` is the history: the registration of index i
 is at position i, and position 0 is for the genesis hash, if there is one.
 */
module BlockhashQueues {
  import opened Wrappers

  type Hash = nat

  datatype HashAge = HashAge(lamportsPerSignature: nat, hashIndex: nat, timestamp: nat)

  datatype Registration = Registration(hash: Hash, lamportsPerSignature: nat)

  type Log = seq<Option<Registration>>

  type Ages = map<Hash, HashAge>

  ghost predicate Has(log: Log, i: nat, hash: Hash) {
    i < |log| && log[i].Some? && log[i].value.hash == hash
  }

  /** The index of the latest registration of a hash. */
  ghost function LastIndex(log: Log, hash: Hash): Option<nat> {
    if log == [] then None
    else if Has(log, |log| - 1, hash) then Some(|log| - 1)
    else LastIndex(log[..|log| - 1], hash)
  }

  lemma {:induction false} LastIndexIsLast(log: Log, hash: Hash)
    ensures LastIndex(log, hash).None? ==> forall i: nat :: !Has(log, i, hash)
    ensures LastIndex(log, hash).Some? ==>
              var i := LastIndex(log, hash).value;
              Has(log, i, hash) && forall j: nat :: Has(log, j, hash) ==> j <= i
    decreases |log|
  {
    if log != [] && !Has(log, |log| - 1, hash) {
      var init := log[..|log| - 1];
      LastIndexIsLast(init, hash);
      assert forall i: nat :: Has(log, i, hash) <==> Has(init, i, hash);
    }
  }

  lemma LastIndexSnoc(log: Log, r: Registration, hash: Hash)
    ensures LastIndex(log + [Some(r)], hash) == if hash == r.hash then Some(|log|) else LastIndex(log, hash)
  {
    assert (log + [Some(r)])[..|log|] == log;
  }

  /** The latest registration of the hash is among the last `age + 1`. */
  ghost predicate Recent(log: Log, hash: Hash, age: nat) {
    LastIndex(log, hash).Some? && |log| - 1 - LastIndex(log, hash).value <= age
  }

  /** A hash is recent exactly if it is among the last `age + 1` registrations. */
  lemma RecentExactly(log: Log, hash: Hash, age: nat)
    ensures Recent(log, hash, age) <==> exists i: nat :: |log| - (age + 1) <= i && Has(log, i, hash)
  {
    LastIndexIsLast(log, hash);
  }

  /** An entry is what the latest registration of its hash put there. */
  ghost predicate Recorded(ages: Ages, log: Log) {
    forall h :: h in ages ==>
      var i := ages[h].hashIndex;
      LastIndex(log, h) == Some(i) && i < |log| && log[i] == Some(Registration(h, ages[h].lamportsPerSignature))
  }

  /** Every recent hash has an entry. */
  ghost predicate Remembered(ages: Ages, log: Log, maxAge: nat) {
    forall h :: Recent(log, h, maxAge) ==> h in ages
  }

  /** Every entry is recent. */
  ghost predicate Exact(ages: Ages, log: Log, maxAge: nat) {
    forall h :: h in ages ==> Recent(log, h, maxAge)
  }

  /** Different hashes have different indexes, so a window of indexes bounds their number. */
  lemma {:induction false} WindowBound(ages: Ages, log: Log, lo: nat, hi: nat)
    requires Recorded(ages, log) && lo <= hi && forall h :: h in ages ==> lo <= ages[h].hashIndex < hi
    ensures |ages| <= hi - lo
    decreases hi - lo
  {
    if h :| h in ages && ages[h].hashIndex == hi - 1 {
      var rest := ages - {h};
      forall g | g in rest
        ensures lo <= rest[g].hashIndex < hi - 1
      {
        LastIndexIsLast(log, g);
        LastIndexIsLast(log, h);
      }
      WindowBound(rest, log, lo, hi - 1);
      assert rest.Keys == ages.Keys - {h};
      assert |rest| == |ages| - 1;
    } else if lo < hi {
      WindowBound(ages, log, lo, hi - 1);
    } else {
      assert ages == map[];
    }
  }

  ghost predicate DistinctHashes(log: Log) {
    forall i, j :: 0 <= i < j < |log| && log[i].Some? && log[j].Some? ==> log[i].value.hash != log[j].value.hash
  }

  /** Different hashes in a window of indexes all have entries, so there are that many. */
  lemma {:induction false} WindowFilled(ages: Ages, log: Log, lo: nat, hi: nat)
    requires DistinctHashes(log) && lo <= hi <= |log|
    requires forall i :: lo <= i < hi ==> log[i].Some? && log[i].value.hash in ages
    ensures |ages| >= hi - lo
    decreases hi - lo
  {
    if lo < hi {
      var h := log[hi - 1].value.hash;
      var rest := ages - {h};
      WindowFilled(rest, log, lo, hi - 1);
      assert rest.Keys == ages.Keys - {h};
      assert |rest| == |ages| - 1;
    }
  }

  // ---------------------------------------------------------------- registering

  predicate IsHashIndexValid(lastHashIndex: nat, maxAge: nat, hashIndex: nat) {
    lastHashIndex - hashIndex <= maxAge
  }

  /** What is kept when a hash is about to be registered: everything, while there are few entries. */
  function Retained(ages: Ages, lastHashIndex: nat, maxAge: nat): Ages {
    if |ages| >= maxAge then Young(ages, lastHashIndex, maxAge) else ages
  }

  function Young(ages: Ages, lastHashIndex: nat, maxAge: nat): Ages {
    map h | h in ages && IsHashIndexValid(lastHashIndex, maxAge, ages[h].hashIndex) :: ages[h]
  }

  lemma RegisterKeepsRecord(ages: Ages, log: Log, maxAge: nat, r: Registration, timestamp: nat)
    requires log != [] && Recorded(ages, log) && Remembered(ages, log, maxAge)
    ensures var ages' := Retained(ages, |log|, maxAge)[r.hash := HashAge(r.lamportsPerSignature, |log|, timestamp)];
            Recorded(ages', log + [Some(r)]) && Remembered(ages', log + [Some(r)], maxAge)
  {
    var log' := log + [Some(r)];
    forall h: Hash
      ensures LastIndex(log', h) == if h == r.hash then Some(|log|) else LastIndex(log, h)
    {
      LastIndexSnoc(log, r, h);
    }
    forall h | Recent(log', h, maxAge) && h != r.hash
      ensures h in Retained(ages, |log|, maxAge)
    {
      assert Recent(log, h, maxAge);
      assert LastIndex(log, h) == Some(ages[h].hashIndex);
    }
  }

  lemma RegisterKeepsSize(ages: Ages, log: Log, maxAge: nat, hash: Hash, age: HashAge)
    requires log != [] && Recorded(ages, log) && |ages| <= maxAge + 1
    ensures |Retained(ages, |log|, maxAge)[hash := age]| <= maxAge + 1
  {
    var kept := Retained(ages, |log|, maxAge);
    if |ages| >= maxAge {
      var lo := if |log| <= maxAge then 0 else |log| - maxAge;
      assert Recorded(kept, log);
      WindowBound(kept, log, lo, |log|);
    }
    var more := kept[hash := age];
    assert more.Keys == kept.Keys + {hash};
    assert |more| <= |kept| + 1;
  }

  /**
   The entries are exactly the recent hashes after a registration, if and only if the map was full
   enough to be looked through, or no other entry was getting too old.
   */
  lemma RegisterIsExact(ages: Ages, log: Log, maxAge: nat, r: Registration, timestamp: nat)
    requires log != [] && Recorded(ages, log)
    ensures var ages' := Retained(ages, |log|, maxAge)[r.hash := HashAge(r.lamportsPerSignature, |log|, timestamp)];
            Exact(ages', log + [Some(r)], maxAge) <==>
              |ages| >= maxAge || forall h :: h in ages && h != r.hash ==> IsHashIndexValid(|log|, maxAge, ages[h].hashIndex)
  {
    var log' := log + [Some(r)];
    var ages' := Retained(ages, |log|, maxAge)[r.hash := HashAge(r.lamportsPerSignature, |log|, timestamp)];
    forall h | h in ages'
      ensures Recent(log', h, maxAge) <==> h == r.hash || IsHashIndexValid(|log|, maxAge, ages[h].hashIndex)
    {
      LastIndexSnoc(log, r, h);
      assert h != r.hash ==> LastIndex(log, h) == Some(ages[h].hashIndex);
    }
    forall h | h in ages && h != r.hash && |ages| < maxAge
      ensures h in ages'
    {
    }
  }

  /** With different hashes, the entries stay exact. */
  lemma DistinctStaysExact(ages: Ages, log: Log, maxAge: nat, r: Registration, timestamp: nat)
    requires log != [] && Recorded(ages, log) && Remembered(ages, log, maxAge) && Exact(ages, log, maxAge)
    requires forall i :: 0 < i < |log| ==> log[i].Some?
    requires DistinctHashes(log + [Some(r)])
    ensures Exact(Retained(ages, |log|, maxAge)[r.hash := HashAge(r.lamportsPerSignature, |log|, timestamp)],
                  log + [Some(r)], maxAge)
  {
    RegisterIsExact(ages, log, maxAge, r, timestamp);
    forall h | h in ages && !IsHashIndexValid(|log|, maxAge, ages[h].hashIndex)
      ensures |ages| >= maxAge
    {
      // the oldest entry that can be there is the one that just became too old
      assert Recent(log, h, maxAge);
      var oldest := ages[h].hashIndex;
      assert oldest == |log| - 1 - maxAge;
      assert DistinctHashes(log) by {
        assert forall i :: 0 <= i < |log| ==> (log + [Some(r)])[i] == log[i];
      }
      forall i | oldest <= i < |log|
        ensures log[i].Some? && log[i].value.hash in ages
      {
        assert log[i].Some?;
        var g := log[i].value.hash;
        LastIndexIsLast(log, g);
        assert Has(log, i, g);
        assert Recent(log, g, maxAge);
      }
      WindowFilled(ages, log, oldest, |log|);
    }
  }

  /** What holds of the map after every history. */
  ghost predicate Reflects(ages: Ages, log: Log, maxAge: nat) {
    && log != [] && (forall i :: 0 < i < |log| ==> log[i].Some?)
    && Recorded(ages, log) && Remembered(ages, log, maxAge) && |ages| <= maxAge + 1
    && (DistinctHashes(log) ==> Exact(ages, log, maxAge))
  }

  lemma RegisterReflects(ages: Ages, log: Log, maxAge: nat, r: Registration, timestamp: nat)
    requires Reflects(ages, log, maxAge)
    ensures Reflects(Retained(ages, |log|, maxAge)[r.hash := HashAge(r.lamportsPerSignature, |log|, timestamp)],
                     log + [Some(r)], maxAge)
  {
    RegisterKeepsRecord(ages, log, maxAge, r, timestamp);
    RegisterKeepsSize(ages, log, maxAge, r.hash, HashAge(r.lamportsPerSignature, |log|, timestamp));
    if DistinctHashes(log + [Some(r)]) {
      assert DistinctHashes(log) by {
        assert forall i :: 0 <= i < |log| ==> (log + [Some(r)])[i] == log[i];
      }
      DistinctStaysExact(ages, log, maxAge, r, timestamp);
    }
  }

  lemma NothingRegistered(ages: Ages)
    requires Recorded(ages, [None])
    ensures ages == map[]
  {
    forall h | h in ages
      ensures false
    {
      LastIndexIsLast([None], h);
    }
  }

  class BlockhashQueue {
    var lastHashIndex: nat
    var lastHash: Option<Hash>
    var ages: Ages
    const maxAge: nat

    ghost var log: Log

    ghost predicate Valid()
      reads this
    {
      && |log| == lastHashIndex + 1 && Reflects(ages, log, maxAge)
      && lastHash == (if log[lastHashIndex].Some? then Some(log[lastHashIndex].value.hash) else None)
    }

    constructor (maxAge: nat)
      ensures Valid() && this.maxAge == maxAge && log == [None]
    {
      this.ages, this.lastHashIndex, this.lastHash, this.maxAge := map[], 0, None, maxAge;
      this.log := [None];
      new;
      forall h: Hash
        ensures LastIndex(log, h) == None
      {
        assert log[..0] == [];
      }
    }

    method GenesisHash(hash: Hash, lamportsPerSignature: nat, timestamp: nat)
      requires Valid() && log == [None]
      modifies this
      ensures Valid() && log == [Some(Registration(hash, lamportsPerSignature))]
    {
      NothingRegistered(ages);
      ages := ages[hash := HashAge(lamportsPerSignature, 0, timestamp)];
      lastHash := Some(hash);
      log := [Some(Registration(hash, lamportsPerSignature))];
      forall h: Hash
        ensures LastIndex(log, h) == if h == hash then Some(0) else None
      {
        assert log[..0] == [];
      }
    }

    method RegisterHash(hash: Hash, lamportsPerSignature: nat, timestamp: nat)
      requires Valid()
      modifies this
      ensures Valid() && log == old(log) + [Some(Registration(hash, lamportsPerSignature))]
      ensures ages == Retained(old(ages), |old(log)|, maxAge)[hash := HashAge(lamportsPerSignature, |old(log)|, timestamp)]
    {
      ghost var r := Registration(hash, lamportsPerSignature);
      RegisterReflects(ages, log, maxAge, r, timestamp);
      lastHashIndex := lastHashIndex + 1;
      if |ages| >= maxAge {
        ages := Young(ages, lastHashIndex, maxAge);
      }
      ages := ages[hash := HashAge(lamportsPerSignature, lastHashIndex, timestamp)];
      lastHash := Some(hash);
      log := log + [Some(r)];
    }

    method LastHash() returns (r: Outcome<Hash>)
      requires Valid()
      ensures r == if log == [None] then Panicked else Returned(log[|log| - 1].value.hash)
    {
      r := if lastHash.Some? then Returned(lastHash.value) else Panicked;
    }

    /** The fee of the latest registration, for every recent hash. */
    method GetLamportsPerSignature(hash: Hash) returns (r: Option<nat>)
      requires Valid()
      ensures Recent(log, hash, maxAge) ==> r.Some?
      ensures r.Some? ==> LastIndex(log, hash).Some? && log[LastIndex(log, hash).value] == Some(Registration(hash, r.value))
    {
      r := if hash in ages then Some(ages[hash].lamportsPerSignature) else None;
    }

    /** Every recent hash is valid; others are not, if no hash was registered twice. */
    method IsHashValid(hash: Hash) returns (valid: bool)
      requires Valid()
      ensures Recent(log, hash, maxAge) ==> valid
      ensures valid == (hash in ages) && (valid ==> LastIndex(log, hash).Some?)
      ensures DistinctHashes(log) ==> (valid <==> Recent(log, hash, maxAge))
    {
      valid := hash in ages;
    }

    /** Up to the age that the queue is for, the answer is right whatever was registered. */
    method IsHashValidForAge(hash: Hash, maxAge: nat) returns (valid: bool)
      requires Valid()
      ensures valid ==> Recent(log, hash, maxAge)
      ensures maxAge <= this.maxAge ==> (valid <==> Recent(log, hash, maxAge))
    {
      valid := hash in ages && IsHashIndexValid(lastHashIndex, maxAge, ages[hash].hashIndex);
    }

    method GetHashAge(hash: Hash) returns (age: Option<nat>)
      requires Valid()
      ensures Recent(log, hash, maxAge) ==> age.Some?
      ensures age.Some? ==> LastIndex(log, hash) == Some(|log| - 1 - age.value)
    {
      age := if hash in ages then Some(lastHashIndex - ages[hash].hashIndex) else None;
    }
  }

  /** Of few hashes, none is forgotten. */
  lemma FewAreRetained(ages: Ages, lastHashIndex: nat, maxAge: nat)
    requires ages.Keys <= {1, 2} && maxAge >= 3
    ensures Retained(ages, lastHashIndex, maxAge) == ages
  {
    SubsetIsSmaller(ages.Keys, {1, 2});
  }

  lemma SubsetIsSmaller(a: set<nat>, b: set<nat>)
    requires a <= b
    ensures |a| <= |b|
  {
    assert b == a + (b - a);
  }

  /**
   With repeated hashes a hash can be valid although it is older than the queue is for, however much
   older: the map never has enough entries to be looked through.
   */
  method RepeatedHashKeepsStale(q: BlockhashQueue, n: nat) returns (valid: bool)
    requires q.Valid() && q.log == [None] && 3 <= q.maxAge < n
    modifies q
    ensures q.Valid() && LastIndex(q.log, 1) == Some(1) && |q.log| == n + 2
    ensures valid && !Recent(q.log, 1, q.maxAge)
  {
    NothingRegistered(q.ages);
    LastIndexSnoc(q.log, Registration(1, 0), 1);
    q.RegisterHash(1, 0, 0);
    for i := 0 to n
      invariant q.Valid() && |q.log| == i + 2 && LastIndex(q.log, 1) == Some(1)
      invariant 1 in q.ages && q.ages.Keys <= {1, 2}
    {
      FewAreRetained(q.ages, |q.log|, q.maxAge);
      LastIndexSnoc(q.log, Registration(2, 0), 1);
      q.RegisterHash(2, 0, 0);
    }
    valid := q.IsHashValid(1);
  }
}
