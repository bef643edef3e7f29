/**
 The de-duplicating merge of the accounts hasher, one bin of public keys at a time.

 Each slot group is sorted by key. The working set holds at most one position per group, sorted by
 key from high to low, and every step may hand the position of one group over to another.
 */
module Dedup {
  import opened Wrappers
  import opened Arith
  import opened BinarySearch
  import opened Pubkeys
  import opened Merkle
  import opened LatestVersions

  datatype Account = Account(hash: Hash, lamports: U64)

  /** One stored version of an account, as extracted from storage for hashing. */
  type Item = Entry<Account>

  type Groups = seq<seq<Item>>

  /** Which bin a key belongs to; bins are ranges of keys, in order. */
  type BinOf = Pubkey -> nat

  ghost predicate InOrder(bin: BinOf, x: Pubkey, y: Pubkey) {
    x <= y ==> bin(x) <= bin(y)
  }

  ghost predicate Ordered(bin: BinOf) {
    forall x: Pubkey, y: Pubkey :: InOrder(bin, x, y)
  }

  ghost predicate AllSorted(groups: Groups) {
    forall g {:trigger SortedByKey(groups[g])} :: 0 <= g < |groups| ==> SortedByKey(groups[g])
  }

  /** `hash_data` is sorted by bin. */
  ghost predicate SortedByBin(data: seq<Item>, bin: BinOf) {
    forall i, j :: 0 <= i <= j < |data| ==> bin(data[i].pubkey) <= bin(data[j].pubkey)
  }

  // ---------------------------------------------------------------- the first key of a bin

  /** The least position whose key is in bin `b`, or `None` when no key is. */
  ghost predicate IsFirstInBin(data: seq<Item>, b: nat, bin: BinOf, r: Option<nat>) {
    match r
    case Some(i) => i < |data| && bin(data[i].pubkey) == b && forall j :: 0 <= j < i ==> bin(data[j].pubkey) != b
    case None => forall j :: 0 <= j < |data| ==> bin(data[j].pubkey) != b
  }

  function BinComparisons(data: seq<Item>, b: nat, bin: BinOf): seq<Ordering> {
    seq(|data|, i requires 0 <= i < |data| => Compare(1 + 2 * bin(data[i].pubkey), 2 * b))
  }

  /** Looking for an even number among odd ones: the search never hits, it only finds the place. */
  function PotentialIndex(data: seq<Item>, b: nat, bin: BinOf): (p: nat)
    requires SortedByBin(data, bin)
    ensures p <= |data|
    ensures forall i :: 0 <= i < p ==> bin(data[i].pubkey) < b
    ensures forall i :: p <= i < |data| ==> bin(data[i].pubkey) >= b
  {
    if b == 0 then 0
    else
      var cmp := BinComparisons(data, b, bin);
      assert Sorted(cmp);
      match BinarySearchBy(cmp)
      case Err(index) =>
        assert forall i :: 0 <= i < |data| ==> cmp[i] == Compare(1 + 2 * bin(data[i].pubkey), 2 * b);
        assert forall i :: 0 <= i < index ==> cmp[i].Less? && 1 + 2 * bin(data[i].pubkey) < 2 * b;
        assert forall i :: index <= i < |data| ==> cmp[i].Greater? && 1 + 2 * bin(data[i].pubkey) > 2 * b;
        index
      case Ok(index) => assert false; index
  }

  function BinarySearchForFirstPubkeyInBin(data: seq<Item>, b: nat, bin: BinOf): (r: Option<nat>)
    requires SortedByBin(data, bin)
    ensures IsFirstInBin(data, b, bin, r)
  {
    var potential := PotentialIndex(data, b, bin);
    if potential < |data| && bin(data[potential].pubkey) == b then Some(potential) else None
  }

  /** Guess a position from the bin number, then search on the side where the bin must start. */
  function FindFirstPubkeyInBin(data: seq<Item>, b: nat, bins: nat, bin: BinOf): (r: Option<nat>)
    requires SortedByBin(data, bin) && b < bins
    ensures IsFirstInBin(data, b, bin, r)
  {
    if data == [] then None
    else
      GuessInRange(|data|, b, bins);
      var i := |data| * b / bins;
      if bin(data[i].pubkey) >= b then
        var low := data[..i + 1];
        var r := BinarySearchForFirstPubkeyInBin(low, b, bin);
        assert forall j :: 0 <= j <= i ==> low[j] == data[j];
        r
      else
        var high := data[i + 1..];
        assert forall j :: i < j < |data| ==> high[j - (i + 1)] == data[j];
        match BinarySearchForFirstPubkeyInBin(high, b, bin)
        case Some(k) => Some(i + 1 + k)
        case None => None
  }

  lemma GuessInRange(n: nat, b: nat, bins: nat)
    requires n > 0 && b < bins
    ensures 0 <= n * b / bins < n
  {
    assert n * b < n * bins;
    DivBelow(n * b, bins, n);
  }

  // ---------------------------------------------------------------- positions in the groups

  datatype Pointer = Pointer(group: nat, offset: nat)

  predicate InRange(groups: Groups, p: Pointer) {
    p.group < |groups| && p.offset < |groups[p.group]|
  }

  function Key(groups: Groups, p: Pointer): Pubkey
    requires InRange(groups, p)
  {
    groups[p.group][p.offset].pubkey
  }

  /** `next` is where the next key of the bin starts in the group of `p`, if there is one. */
  ghost predicate IsNext(groups: Groups, b: nat, bin: BinOf, p: Pointer, next: Option<Pointer>)
    requires InRange(groups, p)
  {
    var data := groups[p.group];
    match next
    case Some(q) =>
      && q.group == p.group && p.offset < q.offset < |data|
      && bin(Key(groups, q)) == b && Key(groups, p) < Key(groups, q)
      && forall i :: p.offset <= i < q.offset ==> data[i].pubkey == Key(groups, p)
    case None =>
      forall i :: p.offset <= i < |data| ==> data[i].pubkey == Key(groups, p) || bin(data[i].pubkey) != b
  }

  /** The last version of the key at `p` within its group, and the position of the next key. */
  method GetItem(groups: Groups, b: nat, bin: BinOf, p: Pointer) returns (item: Account, next: Option<Pointer>)
    requires AllSorted(groups) && Ordered(bin) && InRange(groups, p) && bin(Key(groups, p)) == b
    ensures Latest(groups[p.group], Key(groups, p)) == Some(item)
    ensures IsNext(groups, b, bin, p, next)
  {
    var data := groups[p.group];
    var key := data[p.offset].pubkey;
    var index := p.offset + 1;
    next := None;
    assert SortedByKey(data);
    while index < |data|
      invariant p.offset < index <= |data| && next == None
      invariant forall i :: p.offset <= i < index ==> data[i].pubkey == key
    {
      var nextKey := data[index].pubkey;
      if nextKey == key {
        index := index + 1;
        continue;
      }
      assert data[p.offset].pubkey < nextKey && InOrder(bin, key, nextKey);
      if bin(nextKey) > b {
        break;
      }
      next := Some(Pointer(p.group, index));
      break;
    }
    forall j | index <= j < |data|
      ensures data[index].pubkey <= data[j].pubkey && InOrder(bin, data[index].pubkey, data[j].pubkey)
    {
    }
    item := data[index - 1].value;
    LatestAt(data, index - 1);
  }

  // ---------------------------------------------------------------- the working set

  /** The key at a position, also for positions that do not exist. */
  ghost function KeyOf(groups: Groups, p: Pointer): int {
    if InRange(groups, p) then Key(groups, p) else -1
  }

  /** A position of the bin whose key has not been emitted yet. */
  ghost predicate Pending(groups: Groups, b: nat, bin: BinOf, cut: int, p: Pointer) {
    InRange(groups, p) && bin(Key(groups, p)) == b && Key(groups, p) > cut
  }

  ghost predicate Descending(groups: Groups, ws: seq<Pointer>) {
    forall i, j :: 0 <= i < j < |ws| ==> KeyOf(groups, ws[i]) > KeyOf(groups, ws[j])
  }

  ghost predicate OnePerGroup(ws: seq<Pointer>) {
    forall i, j :: 0 <= i < j < |ws| ==> ws[i].group != ws[j].group
  }

  ghost predicate NoneOfGroup(ws: seq<Pointer>, g: nat) {
    forall i :: 0 <= i < |ws| ==> ws[i].group != g
  }

  /** The working set is sorted from high keys to low ones and holds one pending position per group. */
  ghost predicate WorkingSet(groups: Groups, b: nat, bin: BinOf, ws: seq<Pointer>, next: Option<Pointer>,
                             cut: int, from: nat)
  {
    && (forall i :: 0 <= i < |ws| ==> Pending(groups, b, bin, cut, ws[i]) && ws[i].group >= from)
    && Descending(groups, ws)
    && OnePerGroup(ws)
    && (next.Some? ==>
          && Pending(groups, b, bin, cut, next.value) && next.value.group >= from
          && NoneOfGroup(ws, next.value.group))
  }

  /** A group at least as new is at the key of `p`. */
  ghost predicate Answered(groups: Groups, ws: seq<Pointer>, p: Pointer) {
    exists r :: r in ws && KeyOf(groups, r) == KeyOf(groups, p) && r.group >= p.group
  }

  /** The group of `p` still has to get to `p`. */
  ghost predicate Ahead(ws: seq<Pointer>, p: Pointer) {
    exists r :: r in ws && r.group == p.group && r.offset <= p.offset
  }

  ghost predicate AheadOf(next: Option<Pointer>, p: Pointer) {
    next.Some? && next.value.group == p.group && next.value.offset <= p.offset
  }

  ghost predicate Covered(groups: Groups, ws: seq<Pointer>, next: Option<Pointer>, p: Pointer) {
    Answered(groups, ws, p) || Ahead(ws, p) || AheadOf(next, p)
  }

  /** No pending position of the groups from `from` on is forgotten. */
  ghost predicate AllCovered(groups: Groups, b: nat, bin: BinOf, ws: seq<Pointer>, next: Option<Pointer>,
                             cut: int, from: nat)
  {
    forall p: Pointer :: p.group >= from && Pending(groups, b, bin, cut, p) ==> Covered(groups, ws, next, p)
  }

  /** The invariant of the merge, over the groups from `from` on; all keys up to `cut` have been emitted. */
  ghost predicate Merging(groups: Groups, b: nat, bin: BinOf, ws: seq<Pointer>, next: Option<Pointer>,
                          cut: int, from: nat)
  {
    WorkingSet(groups, b, bin, ws, next, cut, from) && AllCovered(groups, b, bin, ws, next, cut, from)
  }

  function PointersWith(ws: seq<Pointer>, index: nat, q: Pointer): seq<Pointer>
    requires index <= |ws|
  {
    ws[..index] + [q] + ws[index..]
  }

  lemma InsertedMembers(ws: seq<Pointer>, index: nat, q: Pointer)
    requires index <= |ws|
    ensures forall r :: r in PointersWith(ws, index, q) <==> r == q || r in ws
  {
    assert ws == ws[..index] + ws[index..];
  }

  lemma InsertKeepsOrder(groups: Groups, ws: seq<Pointer>, q: Pointer, index: nat)
    requires index <= |ws| && Descending(groups, ws) && OnePerGroup(ws) && NoneOfGroup(ws, q.group)
    requires forall i :: 0 <= i < index ==> KeyOf(groups, ws[i]) > KeyOf(groups, q)
    requires forall i :: index <= i < |ws| ==> KeyOf(groups, ws[i]) < KeyOf(groups, q)
    ensures Descending(groups, PointersWith(ws, index, q)) && OnePerGroup(PointersWith(ws, index, q))
  {
    var ws' := PointersWith(ws, index, q);
    assert forall i :: 0 <= i < |ws'| ==>
        ws'[i] == if i < index then ws[i] else if i == index then q else ws[i - 1];
  }

  lemma InsertKeepsWorkingSet(groups: Groups, b: nat, bin: BinOf, ws: seq<Pointer>, q: Pointer, index: nat,
                              cut: int, from: nat)
    requires WorkingSet(groups, b, bin, ws, Some(q), cut, from) && index <= |ws|
    requires forall i :: 0 <= i < index ==> KeyOf(groups, ws[i]) > KeyOf(groups, q)
    requires forall i :: index <= i < |ws| ==> KeyOf(groups, ws[i]) < KeyOf(groups, q)
    ensures WorkingSet(groups, b, bin, PointersWith(ws, index, q), None, cut, from)
  {
    var ws' := PointersWith(ws, index, q);
    InsertKeepsOrder(groups, ws, q, index);
    assert forall i :: 0 <= i < |ws'| ==>
        ws'[i] == if i < index then ws[i] else if i == index then q else ws[i - 1];
  }

  /** A key that the working set does not hold goes in at its place. */
  lemma InsertKeepsMerging(groups: Groups, b: nat, bin: BinOf, ws: seq<Pointer>, q: Pointer, index: nat,
                           cut: int, from: nat)
    requires Merging(groups, b, bin, ws, Some(q), cut, from) && index <= |ws|
    requires forall i :: 0 <= i < index ==> KeyOf(groups, ws[i]) > KeyOf(groups, q)
    requires forall i :: index <= i < |ws| ==> KeyOf(groups, ws[i]) < KeyOf(groups, q)
    ensures Merging(groups, b, bin, PointersWith(ws, index, q), None, cut, from)
  {
    InsertKeepsWorkingSet(groups, b, bin, ws, q, index, cut, from);
    InsertedMembers(ws, index, q);
    forall p: Pointer | p.group >= from && Pending(groups, b, bin, cut, p)
      ensures Covered(groups, PointersWith(ws, index, q), None, p)
    {
      assert Covered(groups, ws, Some(q), p);
    }
  }

  /** A key below all of them goes to the end. */
  lemma PushKeepsMerging(groups: Groups, b: nat, bin: BinOf, ws: seq<Pointer>, q: Pointer, cut: int, from: nat)
    requires Merging(groups, b, bin, ws, Some(q), cut, from)
    requires ws != [] && KeyOf(groups, q) < KeyOf(groups, ws[|ws| - 1])
    ensures Merging(groups, b, bin, ws + [q], None, cut, from)
  {
    InsertKeepsMerging(groups, b, bin, ws, q, |ws|, cut, from);
    assert PointersWith(ws, |ws|, q) == ws + [q];
  }

  /** A newer group is at the same key: the position moves on. */
  lemma SkipKeepsMerging(groups: Groups, b: nat, bin: BinOf, ws: seq<Pointer>, q: Pointer, index: nat,
                         next: Option<Pointer>, cut: int, from: nat)
    requires Merging(groups, b, bin, ws, Some(q), cut, from)
    requires index < |ws| && KeyOf(groups, ws[index]) == KeyOf(groups, q) && ws[index].group > q.group
    requires IsNext(groups, b, bin, q, next)
    ensures Merging(groups, b, bin, ws, next, cut, from)
  {
    forall p: Pointer | p.group >= from && Pending(groups, b, bin, cut, p)
      ensures Covered(groups, ws, next, p)
    {
      assert Covered(groups, ws, Some(q), p);
      if AheadOf(Some(q), p) {
        assert ws[index] in ws;
        assert Key(groups, p) == Key(groups, q) || AheadOf(next, p);
      }
    }
  }

  lemma SwapKeepsWorkingSet(groups: Groups, b: nat, bin: BinOf, ws: seq<Pointer>, q: Pointer, index: nat,
                            next: Option<Pointer>, cut: int, from: nat)
    requires WorkingSet(groups, b, bin, ws, Some(q), cut, from)
    requires index < |ws| && KeyOf(groups, ws[index]) == KeyOf(groups, q) && ws[index].group < q.group
    requires IsNext(groups, b, bin, ws[index], next)
    ensures WorkingSet(groups, b, bin, ws[index := q], next, cut, from)
  {
    var ws' := ws[index := q];
    assert forall i :: 0 <= i < |ws'| ==> KeyOf(groups, ws'[i]) == KeyOf(groups, ws[i]);
    assert Descending(groups, ws');
    assert OnePerGroup(ws');
  }

  lemma SwapMembers(ws: seq<Pointer>, index: nat, q: Pointer)
    requires index < |ws|
    ensures q in ws[index := q]
    ensures forall r :: r in ws ==> r == ws[index] || r in ws[index := q]
  {
    var ws' := ws[index := q];
    assert ws'[index] == q;
    forall r | r in ws && r != ws[index]
      ensures r in ws'
    {
      var i :| 0 <= i < |ws| && ws[i] == r;
      assert ws'[i] == r;
    }
  }

  /** An older group is at the same key: it gives up its place and moves on. */
  lemma SwapKeepsMerging(groups: Groups, b: nat, bin: BinOf, ws: seq<Pointer>, q: Pointer, index: nat,
                         next: Option<Pointer>, cut: int, from: nat)
    requires Merging(groups, b, bin, ws, Some(q), cut, from)
    requires index < |ws| && KeyOf(groups, ws[index]) == KeyOf(groups, q) && ws[index].group < q.group
    requires IsNext(groups, b, bin, ws[index], next)
    ensures Merging(groups, b, bin, ws[index := q], next, cut, from)
  {
    SwapKeepsWorkingSet(groups, b, bin, ws, q, index, next, cut, from);
    SwapMembers(ws, index, q);
    var older := ws[index];
    forall p: Pointer | p.group >= from && Pending(groups, b, bin, cut, p)
      ensures Covered(groups, ws[index := q], next, p)
    {
      assert Covered(groups, ws, Some(q), p);
      if Answered(groups, ws, p) {
        SwapAnswers(groups, ws, q, index, p);
      } else if Ahead(ws, p) {
        var r :| r in ws && r.group == p.group && r.offset <= p.offset;
        if r == older {
          assert Key(groups, p) == Key(groups, q) || AheadOf(next, p);
        }
      }
    }
  }

  lemma SwapAnswers(groups: Groups, ws: seq<Pointer>, q: Pointer, index: nat, p: Pointer)
    requires index < |ws| && KeyOf(groups, ws[index]) == KeyOf(groups, q) && ws[index].group < q.group
    requires Answered(groups, ws, p)
    ensures Answered(groups, ws[index := q], p)
  {
    SwapMembers(ws, index, q);
    var r :| r in ws && KeyOf(groups, r) == KeyOf(groups, p) && r.group >= p.group;
    var r' := if r == ws[index] then q else r;
    assert r' in ws[index := q] && KeyOf(groups, r') == KeyOf(groups, p) && r'.group >= p.group;
  }

  function KeyComparisons(groups: Groups, ws: seq<Pointer>, key: Pubkey): seq<Ordering>
    requires forall i :: 0 <= i < |ws| ==> InRange(groups, ws[i])
  {
    seq(|ws|, i requires 0 <= i < |ws| => Compare(key, Key(groups, ws[i])))
  }

  /** Where a key is, or belongs, in the working set. */
  method FindInWorkingSet(groups: Groups, ws: seq<Pointer>, key: Pubkey) returns (found: SearchResult)
    requires Descending(groups, ws) && forall i :: 0 <= i < |ws| ==> InRange(groups, ws[i])
    ensures found.Ok? ==> found.index < |ws| && KeyOf(groups, ws[found.index]) == key
    ensures found.Err? ==> found.index <= |ws|
    ensures found.Err? ==> forall i :: 0 <= i < found.index ==> KeyOf(groups, ws[i]) > key
    ensures found.Err? ==> forall i :: found.index <= i < |ws| ==> KeyOf(groups, ws[i]) < key
  {
    var cmp := KeyComparisons(groups, ws, key);
    assert forall i :: 0 <= i < |ws| ==> cmp[i] == Compare(key, KeyOf(groups, ws[i]));
    assert Sorted(cmp);
    found := BinarySearchBy(cmp);
  }

  /** Two groups are at the same key: the newer one stays, the older one moves on. */
  method SettleWith(q: Pointer, index: nat, working: seq<Pointer>, groups: Groups, b: nat, bin: BinOf,
                    ghost cut: int, ghost from: nat)
    returns (ws: seq<Pointer>, next: Option<Pointer>)
    requires AllSorted(groups) && Ordered(bin) && Merging(groups, b, bin, working, Some(q), cut, from)
    requires index < |working| && KeyOf(groups, working[index]) == KeyOf(groups, q)
    ensures Merging(groups, b, bin, ws, next, cut, from)
    ensures next.Some? ==> KeyOf(groups, next.value) > KeyOf(groups, q)
  {
    ws := working;
    var found := ws[index];
    assert Pending(groups, b, bin, cut, q) && Pending(groups, b, bin, cut, found);
    var item;
    if found.group > q.group {
      item, next := GetItem(groups, b, bin, q);
      SkipKeepsMerging(groups, b, bin, ws, q, index, next, cut, from);
    } else {
      item, next := GetItem(groups, b, bin, found);
      SwapKeepsMerging(groups, b, bin, ws, q, index, next, cut, from);
      ws := ws[index := q];
    }
  }

  /**
   One round of `add_next_item`: put position `q` into the working set, or settle with the group
   that is at the same key and move the older of the two on to `next`.
   */
  method PlaceItem(q: Pointer, working: seq<Pointer>, groups: Groups, b: nat, bin: BinOf,
                   ghost cut: int, ghost from: nat)
    returns (ws: seq<Pointer>, next: Option<Pointer>)
    requires AllSorted(groups) && Ordered(bin) && Merging(groups, b, bin, working, Some(q), cut, from)
    ensures Merging(groups, b, bin, ws, next, cut, from)
    ensures next.Some? ==> KeyOf(groups, next.value) > KeyOf(groups, q)
  {
    ws := working;
    assert Pending(groups, b, bin, cut, q);
    var key := Key(groups, q);
    assert ws != [] ==> Pending(groups, b, bin, cut, ws[|ws| - 1]);
    if ws != [] && key < Key(groups, ws[|ws| - 1]) {
      PushKeepsMerging(groups, b, bin, ws, q, cut, from);
      return ws + [q], None;
    }
    var found := FindInWorkingSet(groups, ws, key);
    match found
    case Err(index) =>
      InsertKeepsMerging(groups, b, bin, ws, q, index, cut, from);
      ws, next := PointersWith(ws, index, q), None;
    case Ok(index) =>
      ws, next := SettleWith(q, index, ws, groups, b, bin, cut, from);
  }

  /** Put the position `first` into the working set, moving positions on while their key is already there. */
  method AddNextItem(first: Option<Pointer>, working: seq<Pointer>, groups: Groups, b: nat, bin: BinOf,
                     ghost cut: int, ghost from: nat)
    returns (ws: seq<Pointer>)
    requires AllSorted(groups) && Ordered(bin) && Merging(groups, b, bin, working, first, cut, from)
    ensures Merging(groups, b, bin, ws, None, cut, from)
  {
    ws := working;
    var next := first;
    while next.Some?
      invariant Merging(groups, b, bin, ws, next, cut, from)
      decreases if next.Some? then PUBKEY_SPACE - KeyOf(groups, next.value) else 0
    {
      ws, next := PlaceItem(next.value, ws, groups, b, bin, cut, from);
    }
  }
}
