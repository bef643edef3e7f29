/**
 The accounts index: one slot list per account, the rooted slots, and the scans that are under way.
 `Index` is its state as a value; the class `AccountsIndex` works on fields, and each of its methods
 is proved to do what the function of the same name says.
 */
module AccountsIndexes {
  import opened Wrappers
  import opened Pubkeys
  import opened SlotLists

  type BankId = nat

  datatype Index = Index(
    lists: map<Pubkey, SlotList>,
    roots: set<Slot>,
    maxRoot: Slot,
    scanRoots: map<Slot, nat>,
    removedBanks: set<BankId>)
  {
    /** An account without an entry has an empty list. */
    function ListOf(key: Pubkey): SlotList {
      if key in lists then lists[key] else []
    }

    /** The list of a key is replaced; an empty list is stored only on demand. */
    function WithList(key: Pubkey, list: SlotList, keepEmpty: bool): Index {
      this.(lists := if list == [] && !keepEmpty then lists - {key} else lists[key := list])
    }

    /** No list has an entry in this slot. */
    ghost predicate Unused(slot: Slot) {
      forall key: Pubkey, e :: e in ListOf(key) ==> e.slot != slot
    }

    // -------------------------------------------------------------- the operations

    /** `clean_rooted_entries`, up to the bound or the newest root. */
    function CleanKey(key: Pubkey, bound: Option<Slot>): Index {
      var list := ListOf(key);
      WithList(key, Kept(list, CleanRoot(bound, maxRoot), NewestRoot(roots, list, bound)), false)
    }

    /** `upsert`. */
    function Upsert(key: Pubkey, entry: SlotEntry, other: Option<Slot>): Index {
      WithList(key, Updated(ListOf(key), entry, other), false)
    }

    /** `purge_exact`: the key stays in the index, even without entries. */
    function PurgeSlots(key: Pubkey, slots: set<Slot>): Index {
      WithList(key, WithoutSlots(ListOf(key), slots), key in lists)
    }

    /** `add_root`: roots come in order. */
    function AddRoot(slot: Slot): Index
      requires slot >= maxRoot
    {
      this.(roots := roots + {slot}, maxRoot := slot)
    }

    /** `clean_dead_slot`: the newest root stays what it was. */
    function CleanDeadSlot(slot: Slot): Index {
      this.(roots := roots - {slot})
    }

    function ScansAt(root: Slot): nat {
      if root in scanRoots then scanRoots[root] else 0
    }

    /** A scan registers at the newest root there is. */
    function RegisterScan(): Index {
      this.(scanRoots := scanRoots[maxRoot := ScansAt(maxRoot) + 1])
    }

    function UnregisterScan(root: Slot): Index
      requires ScansAt(root) > 0
    {
      this.(scanRoots := if ScansAt(root) == 1 then scanRoots - {root} else scanRoots[root := ScansAt(root) - 1])
    }

    function RemoveBanks(banks: set<BankId>): Index {
      this.(removedBanks := removedBanks + banks)
    }

    function DropBank(bank: BankId): Index {
      this.(removedBanks := removedBanks - {bank})
    }

    /** `r` is the least root that a scan is registered at. */
    ghost predicate IsMinScanRoot(r: Option<Slot>) {
      match r
      case None => scanRoots == map[]
      case Some(root) => root in scanRoots && forall other :: other in scanRoots ==> root <= other
    }
  }

  /** `max_clean_root`: the proposed bound, lowered to the least root that a scan is registered at. */
  function MaxCleanRoot(minScanRoot: Option<Slot>, proposed: Option<Slot>): Option<Slot> {
    match (minScanRoot, proposed)
    case (None, _) => proposed
    case (Some(_), None) => minScanRoot
    case (Some(root), Some(bound)) => Some(if root <= bound then root else bound)
  }

  /** The bound is the least of the two that are given, and none exactly if none is given. */
  lemma MaxCleanRootIsLeast(minScanRoot: Option<Slot>, proposed: Option<Slot>)
    ensures var bound := MaxCleanRoot(minScanRoot, proposed);
            && (bound.None? <==> minScanRoot.None? && proposed.None?)
            && (minScanRoot.Some? ==> bound.value <= minScanRoot.value) && (proposed.Some? ==> bound.value <= proposed.value)
            && (bound.Some? ==> bound == minScanRoot || bound == proposed)
  {
  }

  lemma ListOfOther(ix: Index, key: Pubkey, list: SlotList, keepEmpty: bool, other: Pubkey)
    ensures ix.WithList(key, list, keepEmpty).ListOf(other) == if other == key then list else ix.ListOf(other)
  {
  }

  /** What a reader by the roots alone finds. */
  ghost function Rooted(ix: Index, bound: Option<Slot>, key: Pubkey): Option<SlotEntry> {
    Resolve(ViewOf(ix.roots, None, bound), ix.ListOf(key))
  }

  /** A new root shows what is in its slot, at once and before anything older. */
  lemma NewRootShows(ix: Index, slot: Slot, key: Pubkey, e: SlotEntry)
    requires slot >= ix.maxRoot && e in ix.ListOf(key) && e.slot == slot
    requires forall root :: root in ix.roots ==> root <= ix.maxRoot
    ensures Rooted(ix.AddRoot(slot), None, key).Some? && Rooted(ix.AddRoot(slot), None, key).value.slot == slot
  {
    ReaderGetsNewestVisible(ix.AddRoot(slot).roots, None, None, ix.ListOf(key));
  }

  /** What is in a slot that is cleaned as dead does not show any more; other roots are not concerned. */
  lemma DeadSlotIsHidden(ix: Index, slot: Slot, bound: Option<Slot>, key: Pubkey)
    ensures var was, now := Rooted(ix, bound, key), Rooted(ix.CleanDeadSlot(slot), bound, key);
            && (now.Some? ==> now.value.slot != slot)
            && (was.Some? && was.value.slot != slot ==> now == was)
    ensures ix.CleanDeadSlot(slot).maxRoot == ix.maxRoot
  {
    var list, ix' := ix.ListOf(key), ix.CleanDeadSlot(slot);
    var v, v' := ViewOf(ix.roots, None, bound), ViewOf(ix'.roots, None, bound);
    assert ix'.ListOf(key) == list;
    ReaderGetsNewestVisible(ix.roots, None, bound, list);
    ReaderGetsNewestVisible(ix'.roots, None, bound, list);
    if Resolve(v, list).Some? && Resolve(v, list).value.slot != slot {
      var newest := Resolve(v, list).value.slot;
      ResolveIsNewest(v, list);
      assert NewestSeen(v', list, newest);
      ResolveAt(v', list, newest);
      ResolveAt(v, list, newest);
    }
  }

  /** Purging slots takes exactly their entries from the list of the key, and the key itself stays. */
  lemma PurgeSlotsExactly(ix: Index, key: Pubkey, slots: set<Slot>, other: Pubkey, e: SlotEntry)
    ensures e in ix.PurgeSlots(key, slots).ListOf(other) <==> e in ix.ListOf(other) && (other == key ==> e.slot !in slots)
    ensures ix.PurgeSlots(key, slots).lists.Keys == ix.lists.Keys
  {
    WithoutSlotsKeepsRest(ix.ListOf(key), slots);
  }

  /** Cleaning takes a key out of the index exactly if nothing is left in its list, and no other key. */
  lemma CleanedKeyGoesExactly(ix: Index, key: Pubkey, bound: Option<Slot>, other: Pubkey)
    ensures var ix' := ix.CleanKey(key, bound);
            && (key in ix'.lists <==> ix'.ListOf(key) != [])
            && (other != key ==> ix'.ListOf(other) == ix.ListOf(other) && (other in ix'.lists <==> other in ix.lists))
            && ix'.roots == ix.roots && ix'.maxRoot == ix.maxRoot
  {
  }

  /** Every list has one entry per slot. */
  ghost predicate AllDistinct(lists: map<Pubkey, SlotList>) {
    forall key :: key in lists ==> DistinctSlots(lists[key])
  }

  lemma FirstEntry(entry: SlotEntry, other: Option<Slot>, reclaims: SlotList)
    ensures Updated([], entry, other) == [entry] && Matched([], entry.slot, other) == [] && reclaims + [] == reclaims
  {
  }

  class AccountsIndex {
    var lists: map<Pubkey, SlotList>
    var aliveRoots: set<Slot>

    /** The greatest root there ever was: it is not lowered when a root is removed. */
    var maxRootInclusive: Slot

    var ongoingScanRoots: map<Slot, nat>
    var removedBankIds: set<BankId>

    /** The state as a value. */
    ghost function State(): Index
      reads this
    {
      Index(lists, aliveRoots, maxRootInclusive, ongoingScanRoots, removedBankIds)
    }

    ghost predicate Valid()
      reads this
    {
      AllDistinct(lists) && forall root :: root in aliveRoots ==> root <= maxRootInclusive
    }

    constructor ()
      ensures Valid() && State() == Index(map[], {}, 0, map[], {})
    {
      lists, aliveRoots, maxRootInclusive, ongoingScanRoots, removedBankIds := map[], {}, 0, map[], {};
    }

    // -------------------------------------------------------------- lists

    /** What a reader gets for a key: the entry that is resolved for it. */
    method Lookup(key: Pubkey, ancestors: Option<set<Slot>>, maxRoot: Option<Slot>) returns (r: Option<SlotEntry>)
      ensures r == Resolve(ViewOf(aliveRoots, ancestors, maxRoot), State().ListOf(key))
    {
      if key !in lists {
        return None;
      }
      var list := lists[key];
      var latest := LatestSlot(aliveRoots, ancestors, list, maxRoot);
      LatestIsResolved(ViewOf(aliveRoots, ancestors, maxRoot), list, latest);
      r := if latest.Some? then Some(list[latest.value]) else None;
    }

    method SetList(key: Pubkey, list: SlotList)
      requires Valid() && list != [] && DistinctSlots(list)
      modifies this`lists
      ensures Valid() && State() == old(State()).WithList(key, list, false)
    {
      lists := lists[key := list];
    }

    /** `upsert`. */
    method Upsert(newSlot: Slot, oldSlot: Slot, key: Pubkey, info: Info, reclaims: SlotList, reclaim: UpsertReclaim)
      returns (r: Outcome<SlotList>)
      requires Valid()
      modifies this`lists
      ensures var matched := Matched(old(State()).ListOf(key), newSlot, Some(oldSlot));
              if reclaim.PreviousSlotEntryWasCached? && !AllCached(matched) then r == Panicked && State() == old(State())
              else
                && r == Returned(reclaims + if reclaim.PopulateReclaims? then matched else [])
                && State() == old(State()).Upsert(key, SlotEntry(newSlot, info), Some(oldSlot)) && Valid()
    {
      if key !in lists {
        FirstEntry(SlotEntry(newSlot, info), Some(oldSlot), reclaims);
        SetList(key, [SlotEntry(newSlot, info)]);
        return Returned(reclaims);
      }
      UpdatedSlots(lists[key], SlotEntry(newSlot, info), Some(oldSlot));
      MatchedOnce(lists[key], newSlot, Some(oldSlot));
      var updated := UpdateSlotList(lists[key], newSlot, info, Some(oldSlot), reclaims, reclaim);
      if updated.Panicked? {
        return Panicked;
      }
      SetList(key, updated.value.current);
      r := Returned(updated.value.reclaimed);
    }

    /** `purge_exact`: tells whether nothing is left for the key. */
    method PurgeExact(key: Pubkey, slots: set<Slot>, reclaims: SlotList) returns (empty: bool, reclaims': SlotList)
      requires Valid()
      modifies this`lists
      ensures Valid() && State() == old(State()).PurgeSlots(key, slots)
      ensures empty == (State().ListOf(key) == [])
      ensures reclaims' == reclaims + InSlots(old(State()).ListOf(key), slots)
    {
      if key !in lists {
        return true, reclaims;
      }
      var list;
      WithoutSlotsKeepsRest(lists[key], slots);
      list, reclaims' := RetainOutside(lists[key], slots, reclaims);
      lists := lists[key := list];
      empty := list == [];
    }

    /** The list of a key is replaced; an empty one takes the key out. */
    method PutList(key: Pubkey, list: SlotList) returns (gone: bool)
      requires Valid() && key in lists && DistinctSlots(list)
      modifies this`lists
      ensures Valid() && State() == old(State()).WithList(key, list, false) && gone == (key !in lists)
    {
      lists := lists[key := list];
      gone := false;
      if list == [] {
        lists := lists - {key};
        gone := true;
      }
    }

    /** `clean_rooted_entries`: tells whether the key is not in the index any more. */
    method CleanRootedEntries(key: Pubkey, reclaims: SlotList, maxCleanRootInclusive: Option<Slot>)
      returns (gone: bool, reclaims': SlotList)
      requires Valid()
      modifies this`lists
      ensures Valid() && State() == old(State()).CleanKey(key, maxCleanRootInclusive)
      ensures gone == (key !in lists)
      ensures var list := old(State()).ListOf(key);
              reclaims' == reclaims + Reclaimed(list, CleanRoot(maxCleanRootInclusive, maxRootInclusive),
                                                NewestRoot(aliveRoots, list, maxCleanRootInclusive))
    {
      if key !in lists {
        return true, reclaims;
      }
      var list := lists[key];
      PurgeKeepsDistinct(list, CleanRoot(maxCleanRootInclusive, maxRootInclusive),
                         NewestRoot(aliveRoots, list, maxCleanRootInclusive));
      list, reclaims' := PurgeOlderRootEntries(aliveRoots, maxRootInclusive, list, reclaims, maxCleanRootInclusive);
      gone := PutList(key, list);
    }

    // -------------------------------------------------------------- roots

    /** `add_root`: panics for a root that is not the newest. */
    method AddRoot(slot: Slot) returns (r: Outcome<()>)
      requires Valid()
      modifies this`aliveRoots, this`maxRootInclusive
      ensures Valid() && (r.Returned? <==> slot >= old(maxRootInclusive))
      ensures State() == if slot >= old(maxRootInclusive) then old(State()).AddRoot(slot) else old(State())
    {
      if slot < maxRootInclusive {
        return Panicked;
      }
      aliveRoots, maxRootInclusive := aliveRoots + {slot}, slot;
      return Returned(());
    }

    /** `clean_dead_slot`: tells whether the slot was a root. */
    method CleanDeadSlot(slot: Slot) returns (was: bool)
      requires Valid()
      modifies this`aliveRoots
      ensures Valid() && was == (slot in old(aliveRoots)) && State() == old(State()).CleanDeadSlot(slot)
    {
      was := slot in aliveRoots;
      aliveRoots := aliveRoots - {slot};
    }

    // -------------------------------------------------------------- scans

    /** What a scan asks before it is registered, and again after it is unregistered. */
    method IsBankRemoved(bank: BankId) returns (removed: bool)
      ensures removed == (bank in State().removedBanks)
    {
      removed := bank in removedBankIds;
    }

    /** A scan registers at the newest root; unless that is among its ancestors, it goes by roots alone. */
    method RegisterScan(ancestors: set<Slot>) returns (maxRoot: Slot, used: set<Slot>)
      modifies this`ongoingScanRoots
      ensures State() == old(State()).RegisterScan() && maxRoot == maxRootInclusive
      ensures used == if maxRootInclusive in ancestors then ancestors else {}
    {
      maxRoot := maxRootInclusive;
      var count := if maxRoot in ongoingScanRoots then ongoingScanRoots[maxRoot] else 0;
      ongoingScanRoots := ongoingScanRoots[maxRoot := count + 1];
      used := if maxRoot in ancestors then ancestors else {};
    }

    /** The registration is taken back, and the entry with the last one. */
    method UnregisterScan(maxRoot: Slot)
      requires State().ScansAt(maxRoot) > 0
      modifies this`ongoingScanRoots
      ensures State() == old(State()).UnregisterScan(maxRoot)
    {
      var count := ongoingScanRoots[maxRoot] - 1;
      ongoingScanRoots := ongoingScanRoots[maxRoot := count];
      if count == 0 {
        ongoingScanRoots := ongoingScanRoots - {maxRoot};
      }
    }

    /** `min_ongoing_scan_root`. */
    method MinOngoingScanRoot() returns (r: Option<Slot>)
      ensures State().IsMinScanRoot(r)
    {
      var rest := ongoingScanRoots.Keys;
      if rest == {} {
        assert ongoingScanRoots == map[];
        return None;
      }
      var least :| least in rest;
      while rest != {}
        invariant rest <= ongoingScanRoots.Keys && least in ongoingScanRoots
        invariant forall root :: root in ongoingScanRoots && root !in rest ==> least <= root
        decreases |rest|
      {
        var root :| root in rest;
        rest := rest - {root};
        least := if root < least then root else least;
      }
      r := Some(least);
    }
  }
}
