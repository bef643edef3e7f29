/**
 The slot list of one account: the slots it was written in, and where. What a reader sees of it, how
 it is updated and how it is cleaned.
 */
module SlotLists {
  import opened Wrappers
  import opened Arith
  import opened AccountInfos

  const SLOT_MAX: nat := U64_MAX

  type Slot = U64

  /** What the packed account info says. */
  datatype Info = Info(location: StorageLocation, zeroLamport: bool) {
    predicate IsCached() {
      location.Cached?
    }
  }

  datatype SlotEntry = SlotEntry(slot: Slot, info: Info)

  type SlotList = seq<SlotEntry>

  // ---------------------------------------------------------------- what a reader sees

  /** A reader: the slots of its fork, and the newest root it may look at. */
  datatype View = View(roots: set<Slot>, ancestors: set<Slot>, maxRoot: Slot) {
    predicate Sees(slot: Slot) {
      slot in ancestors || (slot in roots && slot <= maxRoot)
    }
  }

  /** Entry `k` is newer than entry `j`, or a later entry of the same slot, or the same. */
  predicate Beats(list: SlotList, k: nat, j: nat)
    requires k < |list| && j < |list|
  {
    list[j].slot < list[k].slot || (list[j].slot == list[k].slot && j <= k)
  }

  /** `r` is the position of the newest entry that the reader sees; of two in one slot, the later one. */
  ghost predicate IsLatest(v: View, list: SlotList, r: Option<nat>) {
    match r
    case None => forall j :: 0 <= j < |list| ==> !v.Sees(list[j].slot)
    case Some(k) =>
      && k < |list| && v.Sees(list[k].slot)
      && forall j :: 0 <= j < |list| && v.Sees(list[j].slot) ==> Beats(list, k, j)
  }

  /** What has been looked at when the ancestors are done and the roots from `from` on: see `IsLatest`. */
  ghost predicate Leads(v: View, list: SlotList, from: nat, r: Option<nat>) {
    match r
    case None => forall j :: 0 <= j < |list| && (j >= from || list[j].slot in v.ancestors) ==> !v.Sees(list[j].slot)
    case Some(k) =>
      && k < |list| && v.Sees(list[k].slot) && (k >= from || list[k].slot in v.ancestors)
      && forall j :: 0 <= j < |list| && (j >= from || list[j].slot in v.ancestors) && v.Sees(list[j].slot) ==>
           Beats(list, k, j)
  }

  /** The scan for the newest ancestor, from the end of the list. */
  method LatestAncestor(v: View, list: SlotList) returns (r: Option<nat>)
    ensures Leads(v, list, |list|, r)
  {
    var currentMax: Slot := 0;
    r := None;
    for i := 0 to |list|
      invariant r.Some? ==> |list| - i <= r.value < |list| && currentMax == list[r.value].slot
      invariant r.Some? ==> list[r.value].slot in v.ancestors
      invariant r.Some? ==> forall j :: |list| - i <= j < |list| && list[j].slot in v.ancestors ==> Beats(list, r.value, j)
      invariant r.None? ==> forall j :: |list| - i <= j < |list| ==> list[j].slot !in v.ancestors
    {
      var p := |list| - 1 - i;
      var slot := list[p].slot;
      if (r.None? || slot > currentMax) && slot in v.ancestors {
        r := Some(p);
        currentMax := slot;
      }
    }
  }

  /**
   `latest_slot`: first the newest ancestor, then any newer root up to the bound. The code counts
   positions from the end of the list; the positions here are the ones it converts them to.
   */
  method LatestSlot(roots: set<Slot>, ancestors: Option<set<Slot>>, list: SlotList, maxRootInclusive: Option<Slot>)
    returns (r: Option<nat>)
    ensures IsLatest(ViewOf(roots, ancestors, maxRootInclusive), list, r)
  {
    var v := ViewOf(roots, ancestors, maxRootInclusive);
    var currentMax: Slot := 0;
    r := None;
    if v.ancestors != {} {
      r := LatestAncestor(v, list);
      if r.Some? {
        currentMax := list[r.value].slot;
      }
    }
    for i := 0 to |list|
      invariant Leads(v, list, |list| - i, r)
      invariant r.Some? ==> currentMax == list[r.value].slot
    {
      var p := |list| - 1 - i;
      var slot := list[p].slot;
      if (r.None? || slot > currentMax) && slot <= v.maxRoot && slot in roots {
        r := Some(p);
        currentMax := slot;
      }
    }
  }

  /** No ancestors are an empty set of them, and no bound is the largest slot. */
  function ViewOf(roots: set<Slot>, ancestors: Option<set<Slot>>, maxRootInclusive: Option<Slot>): View {
    View(roots, if ancestors.Some? then ancestors.value else {},
         if maxRootInclusive.Some? then maxRootInclusive.value else SLOT_MAX)
  }

  /** The entry that the reader sees, as a value. */
  function Resolve(v: View, list: SlotList): Option<SlotEntry> {
    if list == [] then None
    else
      var r, e := Resolve(v, list[..|list| - 1]), list[|list| - 1];
      if v.Sees(e.slot) && (r.None? || e.slot >= r.value.slot) then Some(e) else r
  }

  /** The last entry of a slot. */
  function LastAt(list: SlotList, slot: Slot): Option<SlotEntry> {
    if list == [] then None
    else if list[|list| - 1].slot == slot then Some(list[|list| - 1])
    else LastAt(list[..|list| - 1], slot)
  }

  lemma LastAtSnoc(list: SlotList, e: SlotEntry, slot: Slot)
    ensures LastAt(list + [e], slot) == if e.slot == slot then Some(e) else LastAt(list, slot)
  {
    assert (list + [e])[..|list|] == list;
  }

  /** `slot` is the newest slot of the list that the reader sees. */
  ghost predicate NewestSeen(v: View, list: SlotList, slot: Slot) {
    && v.Sees(slot)
    && (exists e :: e in list && e.slot == slot)
    && (forall e :: e in list && v.Sees(e.slot) ==> e.slot <= slot)
  }

  ghost predicate SeesNothing(v: View, list: SlotList) {
    forall e :: e in list ==> !v.Sees(e.slot)
  }

  lemma {:induction false} LastAtIsThere(list: SlotList, slot: Slot)
    ensures LastAt(list, slot).Some? ==> LastAt(list, slot).value in list && LastAt(list, slot).value.slot == slot
    ensures LastAt(list, slot).None? ==> forall e :: e in list ==> e.slot != slot
    decreases |list|
  {
    if list != [] {
      var init := list[..|list| - 1];
      LastAtIsThere(init, slot);
      assert list == init + [list[|list| - 1]];
    }
  }

  /** A reader sees the last entry of the newest slot it sees, or nothing. */
  lemma {:induction false} ResolveIsNewest(v: View, list: SlotList)
    ensures Resolve(v, list).None? ==> SeesNothing(v, list)
    ensures Resolve(v, list).Some? ==>
              var slot := Resolve(v, list).value.slot;
              NewestSeen(v, list, slot) && Resolve(v, list) == LastAt(list, slot)
    decreases |list|
  {
    if list != [] {
      var init, e := list[..|list| - 1], list[|list| - 1];
      ResolveIsNewest(v, init);
      assert list == init + [e];
      assert e in list;
      if Resolve(v, init).Some? {
        LastAtIsThere(init, Resolve(v, init).value.slot);
      }
    }
  }

  /** The newest slot seen determines what is resolved. */
  lemma ResolveAt(v: View, list: SlotList, slot: Slot)
    requires NewestSeen(v, list, slot)
    ensures Resolve(v, list) == LastAt(list, slot) && LastAt(list, slot).Some?
  {
    ResolveIsNewest(v, list);
    LastAtIsThere(list, slot);
    if Resolve(v, list).Some? {
      LastAtIsThere(list, Resolve(v, list).value.slot);
    }
  }

  /** The position found by `LatestSlot` holds the resolved entry. */
  lemma LatestIsResolved(v: View, list: SlotList, r: Option<nat>)
    requires IsLatest(v, list, r)
    ensures Resolve(v, list) == if r.Some? then Some(list[r.value]) else None
  {
    match r
    case None =>
      ResolveIsNewest(v, list);
    case Some(k) =>
      var e := list[k];
      assert NewestSeen(v, list, e.slot);
      ResolveAt(v, list, e.slot);
      LastAtPosition(list, k);
  }

  lemma {:induction false} LastAtPosition(list: SlotList, k: nat)
    requires k < |list| && forall j :: k < j < |list| ==> list[j].slot != list[k].slot
    ensures LastAt(list, list[k].slot) == Some(list[k])
    decreases |list|
  {
    if k < |list| - 1 {
      LastAtPosition(list[..|list| - 1], k);
    }
  }

  /** Lists that agree on every slot the reader sees look the same to it. */
  lemma SameToReader(v: View, list: SlotList, v': View, list': SlotList)
    requires forall slot: Slot :: v.Sees(slot) ==> LastAt(list, slot) == LastAt(list', slot)
    requires forall e :: e in list || e in list' ==> (v.Sees(e.slot) <==> v'.Sees(e.slot))
    ensures Resolve(v, list) == Resolve(v', list')
  {
    ResolveIsNewest(v, list);
    if Resolve(v, list).None? {
      ResolveIsNewest(v', list');
      forall e | e in list'
        ensures !v'.Sees(e.slot)
      {
        LastAtIsThere(list, e.slot);
        LastAtIsThere(list', e.slot);
      }
    } else {
      var slot := Resolve(v, list).value.slot;
      LastAtIsThere(list', slot);
      forall e | e in list' && v'.Sees(e.slot)
        ensures e.slot <= slot
      {
        LastAtIsThere(list, e.slot);
        LastAtIsThere(list', e.slot);
      }
      assert NewestSeen(v', list', slot);
      ResolveAt(v', list', slot);
    }
  }

  /** A slot is visible to a reader: in its fork, or a root within its bound. */
  ghost predicate Visible(roots: set<Slot>, ancestors: Option<set<Slot>>, bound: Option<Slot>, slot: Slot) {
    (ancestors.Some? && slot in ancestors.value) || (slot in roots && (bound.None? || slot <= bound.value))
  }

  /** A reader gets the entry of the newest visible slot, and none exactly if no slot of the list is visible. */
  lemma ReaderGetsNewestVisible(roots: set<Slot>, ancestors: Option<set<Slot>>, bound: Option<Slot>, list: SlotList)
    ensures var r := Resolve(ViewOf(roots, ancestors, bound), list);
            if r.Some? then
              && r.value in list && Visible(roots, ancestors, bound, r.value.slot)
              && forall e :: e in list && Visible(roots, ancestors, bound, e.slot) ==> e.slot <= r.value.slot
            else forall e :: e in list ==> !Visible(roots, ancestors, bound, e.slot)
  {
    var v := ViewOf(roots, ancestors, bound);
    ResolveIsNewest(v, list);
    if Resolve(v, list).Some? {
      LastAtIsThere(list, Resolve(v, list).value.slot);
    }
    assert forall slot: Slot :: v.Sees(slot) <==> Visible(roots, ancestors, bound, slot);
  }

  // ---------------------------------------------------------------- cleaning

  function WithinBound(slot: Slot, bound: Option<Slot>): bool {
    bound.None? || slot <= bound.value
  }

  /** The newest root of the list up to the bound, or 0. */
  function NewestRoot(roots: set<Slot>, list: SlotList, bound: Option<Slot>): Slot {
    if list == [] then 0
    else
      var r, e := NewestRoot(roots, list[..|list| - 1], bound), list[|list| - 1];
      if WithinBound(e.slot, bound) && e.slot > r && e.slot in roots then e.slot else r
  }

  lemma {:induction false} NewestRootIsNewest(roots: set<Slot>, list: SlotList, bound: Option<Slot>)
    ensures var r := NewestRoot(roots, list, bound);
            && (r > 0 ==> r in roots && WithinBound(r, bound) && exists e :: e in list && e.slot == r)
            && (forall e :: e in list && e.slot in roots && WithinBound(e.slot, bound) ==> e.slot <= r)
    decreases |list|
  {
    if list != [] {
      var init, e := list[..|list| - 1], list[|list| - 1];
      NewestRootIsNewest(roots, init, bound);
      assert list == init + [e];
      assert e in list;
    }
  }

  method GetNewestRootInSlotList(roots: set<Slot>, list: SlotList, maxAllowedRootInclusive: Option<Slot>)
    returns (maxRoot: Slot)
    ensures maxRoot == NewestRoot(roots, list, maxAllowedRootInclusive)
  {
    maxRoot := 0;
    for i := 0 to |list|
      invariant maxRoot == NewestRoot(roots, list[..i], maxAllowedRootInclusive)
    {
      assert list[..i + 1][..i] == list[..i];
      var slot := list[i].slot;
      if maxAllowedRootInclusive.Some? && slot > maxAllowedRootInclusive.value {
        continue;
      }
      if slot > maxRoot && slot in roots {
        maxRoot := slot;
      }
    }
    assert list[..|list|] == list;
  }

  predicate CanPurgeOlderEntries(maxCleanRootExclusive: Slot, newestRoot: Slot, slot: Slot) {
    slot < maxCleanRootExclusive && slot != newestRoot
  }

  predicate ShouldPurge(clean: Slot, newest: Slot, e: SlotEntry) {
    CanPurgeOlderEntries(clean, newest, e.slot) && !e.info.IsCached()
  }

  function Kept(list: SlotList, clean: Slot, newest: Slot): SlotList {
    if list == [] then []
    else
      var e := list[|list| - 1];
      Kept(list[..|list| - 1], clean, newest) + if ShouldPurge(clean, newest, e) then [] else [e]
  }

  function Reclaimed(list: SlotList, clean: Slot, newest: Slot): SlotList {
    if list == [] then []
    else
      var e := list[|list| - 1];
      Reclaimed(list[..|list| - 1], clean, newest) + if ShouldPurge(clean, newest, e) then [e] else []
  }

  /** The slot up to which is cleaned: the bound, or the newest root there is. */
  function CleanRoot(maxCleanRootInclusive: Option<Slot>, maxRootInclusive: Slot): Slot {
    if maxCleanRootInclusive.Some? then maxCleanRootInclusive.value else maxRootInclusive
  }

  /** `purge_older_root_entries`: the list keeps what it needs, the rest is reclaimed. */
  method PurgeOlderRootEntries(roots: set<Slot>, maxRootInclusive: Slot, list: SlotList, reclaims: SlotList,
                               maxCleanRootInclusive: Option<Slot>)
    returns (list': SlotList, reclaims': SlotList)
    ensures var clean := CleanRoot(maxCleanRootInclusive, maxRootInclusive);
            var newest := NewestRoot(roots, list, maxCleanRootInclusive);
            list' == Kept(list, clean, newest) && reclaims' == reclaims + Reclaimed(list, clean, newest)
  {
    var newest := GetNewestRootInSlotList(roots, list, maxCleanRootInclusive);
    var clean := CleanRoot(maxCleanRootInclusive, maxRootInclusive);
    list', reclaims' := [], reclaims;
    for i := 0 to |list|
      invariant list' == Kept(list[..i], clean, newest)
      invariant reclaims' == reclaims + Reclaimed(list[..i], clean, newest)
    {
      assert list[..i + 1][..i] == list[..i];
      if CanPurgeOlderEntries(clean, newest, list[i].slot) && !list[i].info.IsCached() {
        reclaims' := reclaims' + [list[i]];
      } else {
        list' := list' + [list[i]];
      }
    }
    assert list[..|list|] == list;
  }

  lemma OneGoesEitherWay(list: SlotList, e: SlotEntry, kept: SlotList, gone: SlotList)
    requires multiset(kept) + multiset(gone) == multiset(list)
    ensures multiset(kept + [e]) + multiset(gone) == multiset(list + [e])
    ensures multiset(kept) + multiset(gone + [e]) == multiset(list + [e])
    ensures kept + [] == kept && gone + [] == gone
  {
  }

  /** Nothing is lost and nothing is made up. */
  lemma {:induction false} PurgeConserves(list: SlotList, clean: Slot, newest: Slot)
    ensures multiset(Kept(list, clean, newest)) + multiset(Reclaimed(list, clean, newest)) == multiset(list)
    decreases |list|
  {
    if list != [] {
      var init, e := list[..|list| - 1], list[|list| - 1];
      PurgeConserves(init, clean, newest);
      assert list == init + [e];
      OneGoesEitherWay(init, e, Kept(init, clean, newest), Reclaimed(init, clean, newest));
    }
  }

  lemma {:induction false} PurgeMembers(list: SlotList, clean: Slot, newest: Slot)
    ensures forall e :: e in Kept(list, clean, newest) <==> e in list && !ShouldPurge(clean, newest, e)
    ensures forall e :: e in Reclaimed(list, clean, newest) <==> e in list && ShouldPurge(clean, newest, e)
    decreases |list|
  {
    if list != [] {
      PurgeMembers(list[..|list| - 1], clean, newest);
      assert list == list[..|list| - 1] + [list[|list| - 1]];
    }
  }

  /** The slot is the greatest rooted one of the list within the bound; slot 0, if there is none. */
  ghost predicate IsNewestRooted(slot: Slot, roots: set<Slot>, list: SlotList, bound: Option<Slot>) {
    && (slot == 0 || (slot in roots && (bound.None? || slot <= bound.value) && exists e :: e in list && e.slot == slot))
    && forall e :: e in list && e.slot in roots && (bound.None? || e.slot <= bound.value) ==> e.slot <= slot
  }

  lemma NewestRootedIsUnique(slot: Slot, roots: set<Slot>, list: SlotList, bound: Option<Slot>)
    ensures IsNewestRooted(slot, roots, list, bound) <==> slot == NewestRoot(roots, list, bound)
  {
    NewestRootIsNewest(roots, list, bound);
  }

  /**
   What a purge takes away: whatever is stored below the clean root, be it outdated by a newer root or in
   a slot that was never rooted, except in the newest rooted slot. Everything else stays.
   */
  lemma PurgedExactly(roots: set<Slot>, list: SlotList, bound: Option<Slot>, maxRoot: Slot, e: SlotEntry)
    ensures var clean := if bound.Some? then bound.value else maxRoot;
            var stays := e.info.IsCached() || e.slot >= clean || IsNewestRooted(e.slot, roots, list, bound);
            && (e in Kept(list, CleanRoot(bound, maxRoot), NewestRoot(roots, list, bound)) <==> e in list && stays)
            && (e in Reclaimed(list, CleanRoot(bound, maxRoot), NewestRoot(roots, list, bound)) <==> e in list && !stays)
  {
    NewestRootedIsUnique(e.slot, roots, list, bound);
    PurgeMembers(list, CleanRoot(bound, maxRoot), NewestRoot(roots, list, bound));
  }

  lemma {:induction false} PurgeKeepsLastAt(list: SlotList, clean: Slot, newest: Slot, slot: Slot)
    requires !CanPurgeOlderEntries(clean, newest, slot)
    ensures LastAt(Kept(list, clean, newest), slot) == LastAt(list, slot)
    decreases |list|
  {
    if list != [] {
      var e := list[|list| - 1];
      PurgeKeepsLastAt(list[..|list| - 1], clean, newest, slot);
      var kept := Kept(list[..|list| - 1], clean, newest);
      if ShouldPurge(clean, newest, e) {
        assert Kept(list, clean, newest) == kept;
      } else {
        LastAtSnoc(kept, e, slot);
      }
    }
  }

  /** Without a bound the newest root is that of all roots, which are not above the greatest root there is. */
  ghost predicate Bounded(roots: set<Slot>, bound: Option<Slot>, maxRoot: Slot) {
    bound.None? ==> forall root :: root in roots ==> root <= maxRoot
  }

  lemma {:induction false} NewestRootUpTo(roots: set<Slot>, list: SlotList, bound: Option<Slot>, maxRoot: Slot)
    requires Bounded(roots, bound, maxRoot)
    ensures NewestRoot(roots, list, bound) == NewestRoot(roots, list, Some(CleanRoot(bound, maxRoot)))
    decreases |list|
  {
    if list != [] {
      NewestRootUpTo(roots, list[..|list| - 1], bound, maxRoot);
    }
  }

  /** An entry that is purged although no newer root outdates it is in an unrooted slot. */
  lemma PurgedAboveNewestIsUnrooted(roots: set<Slot>, list: SlotList, bound: Option<Slot>, maxRoot: Slot, e: SlotEntry)
    requires Bounded(roots, bound, maxRoot)
    requires e in Reclaimed(list, CleanRoot(bound, maxRoot), NewestRoot(roots, list, bound))
    requires e.slot > NewestRoot(roots, list, bound)
    ensures e.slot !in roots
  {
    NewestRootIsNewest(roots, list, bound);
    PurgeMembers(list, CleanRoot(bound, maxRoot), NewestRoot(roots, list, bound));
  }

  /**
   Cleaning, up to a bound or up to the greatest root, does not change what a reader sees, if its root
   bound is not below and the entries of its fork below are in rooted slots.
   */
  lemma CleaningPreservesReaders(v: View, list: SlotList, bound: Option<Slot>, maxRoot: Slot)
    requires Bounded(v.roots, bound, maxRoot) && CleanRoot(bound, maxRoot) <= v.maxRoot
    requires forall e :: e in list && e.slot in v.ancestors && e.slot < CleanRoot(bound, maxRoot) ==> e.slot in v.roots
    ensures Resolve(v, Kept(list, CleanRoot(bound, maxRoot), NewestRoot(v.roots, list, bound))) == Resolve(v, list)
  {
    NewestRootUpTo(v.roots, list, bound, maxRoot);
    CleaningUpToPreservesReaders(v, list, CleanRoot(bound, maxRoot));
  }

  lemma CleaningUpToPreservesReaders(v: View, list: SlotList, clean: Slot)
    requires clean <= v.maxRoot
    requires forall e :: e in list && e.slot in v.ancestors && e.slot < clean ==> e.slot in v.roots
    ensures Resolve(v, Kept(list, clean, NewestRoot(v.roots, list, Some(clean)))) == Resolve(v, list)
  {
    var newest := NewestRoot(v.roots, list, Some(clean));
    var kept := Kept(list, clean, newest);
    NewestRootIsNewest(v.roots, list, Some(clean));
    PurgeMembers(list, clean, newest);
    ResolveIsNewest(v, list);
    if Resolve(v, list).Some? {
      var slot := Resolve(v, list).value.slot;
      SeenNewestIsKept(v, list, clean, slot);
      PurgeKeepsLastAt(list, clean, newest, slot);
      LastAtIsThere(kept, slot);
      LastAtIsThere(list, slot);
      assert NewestSeen(v, kept, slot);
      ResolveAt(v, kept, slot);
    } else {
      ResolveIsNewest(v, kept);
    }
  }

  lemma SeenNewestIsKept(v: View, list: SlotList, clean: Slot, slot: Slot)
    requires clean <= v.maxRoot && NewestSeen(v, list, slot)
    requires forall e :: e in list && e.slot in v.ancestors && e.slot < clean ==> e.slot in v.roots
    ensures !CanPurgeOlderEntries(clean, NewestRoot(v.roots, list, Some(clean)), slot)
  {
    var newest := NewestRoot(v.roots, list, Some(clean));
    NewestRootIsNewest(v.roots, list, Some(clean));
    var e :| e in list && e.slot == slot;
    if slot < clean {
      assert slot in v.roots;
      assert slot <= newest;
      if newest > 0 {
        var n :| n in list && n.slot == newest;
        assert v.Sees(n.slot);
      }
    }
  }

  // ---------------------------------------------------------------- updating

  datatype UpsertReclaim = PreviousSlotEntryWasCached | PopulateReclaims | IgnoreReclaims

  /** No slot is listed twice. */
  ghost predicate DistinctSlots(list: SlotList) {
    list == [] || (DistinctSlots(list[..|list| - 1])
                   && forall e :: e in list[..|list| - 1] ==> e.slot != list[|list| - 1].slot)
  }

  predicate Matches(e: SlotEntry, slot: Slot, other: Option<Slot>) {
    e.slot == slot || other == Some(e.slot)
  }

  /** From the end of the list: the first match is replaced by `entry`, further ones are removed. */
  function Replaced(list: SlotList, entry: SlotEntry, other: Option<Slot>, found: bool): SlotList {
    if list == [] then []
    else
      var init, e := list[..|list| - 1], list[|list| - 1];
      if !Matches(e, entry.slot, other) then Replaced(init, entry, other, found) + [e]
      else if found then Replaced(init, entry, other, true)
      else Replaced(init, entry, other, true) + [entry]
  }

  /** The matching entries, from the end of the list. */
  function Matched(list: SlotList, slot: Slot, other: Option<Slot>): SlotList {
    if list == [] then []
    else
      var init, e := list[..|list| - 1], list[|list| - 1];
      (if Matches(e, slot, other) then [e] else []) + Matched(init, slot, other)
  }

  /** The list after an update: `entry` takes the place of a match, or goes to the end. */
  function Updated(list: SlotList, entry: SlotEntry, other: Option<Slot>): SlotList {
    if Matched(list, entry.slot, other) == [] then list + [entry] else Replaced(list, entry, other, false)
  }

  predicate AllCached(entries: SlotList) {
    forall e :: e in entries ==> e.info.IsCached()
  }

  lemma {:induction false} MatchedMembers(list: SlotList, slot: Slot, other: Option<Slot>)
    ensures forall e :: e in Matched(list, slot, other) <==> e in list && Matches(e, slot, other)
    decreases |list|
  {
    if list != [] {
      MatchedMembers(list[..|list| - 1], slot, other);
      assert list == list[..|list| - 1] + [list[|list| - 1]];
    }
  }

  lemma {:induction false} ReplacedMembers(list: SlotList, entry: SlotEntry, other: Option<Slot>, found: bool)
    ensures forall e :: e in Replaced(list, entry, other, found) ==>
              (e == entry && !found) || (e in list && !Matches(e, entry.slot, other))
    ensures forall e :: e in list && !Matches(e, entry.slot, other) ==> e in Replaced(list, entry, other, found)
    ensures !found && Matched(list, entry.slot, other) != [] ==> entry in Replaced(list, entry, other, found)
    decreases |list|
  {
    if list != [] {
      var init, e := list[..|list| - 1], list[|list| - 1];
      var found' := found || Matches(e, entry.slot, other);
      ReplacedMembers(init, entry, other, found');
      assert list == init + [e];
    }
  }

  lemma {:induction false} ReplacedKeepsLastAt(list: SlotList, entry: SlotEntry, other: Option<Slot>, found: bool, s: Slot)
    requires s != entry.slot && other != Some(s)
    ensures LastAt(Replaced(list, entry, other, found), s) == LastAt(list, s)
    decreases |list|
  {
    if list != [] {
      var init, e := list[..|list| - 1], list[|list| - 1];
      var found' := found || Matches(e, entry.slot, other);
      ReplacedKeepsLastAt(init, entry, other, found', s);
      var front := Replaced(init, entry, other, found');
      LastAtSnoc(front, e, s);
      LastAtSnoc(front, entry, s);
    }
  }

  lemma {:induction false} ReplacedKeepsDistinct(list: SlotList, entry: SlotEntry, other: Option<Slot>, found: bool)
    requires DistinctSlots(list)
    ensures DistinctSlots(Replaced(list, entry, other, found))
    decreases |list|
  {
    if list != [] {
      var init, e := list[..|list| - 1], list[|list| - 1];
      var found' := found || Matches(e, entry.slot, other);
      ReplacedKeepsDistinct(init, entry, other, found');
      ReplacedMembers(init, entry, other, found');
      var front := Replaced(init, entry, other, found');
      assert (front + [e])[..|front|] == front && (front + [entry])[..|front|] == front;
    }
  }

  /** What is replaced are the entries of the list in either slot, each as often as it is there. */
  lemma {:induction false} MatchedExactly(list: SlotList, slot: Slot, other: Option<Slot>, e: SlotEntry)
    ensures multiset(Matched(list, slot, other))[e] ==
              if e.slot == slot || other == Some(e.slot) then multiset(list)[e] else 0
    decreases |list|
  {
    if list != [] {
      MatchedExactly(list[..|list| - 1], slot, other, e);
      assert list == list[..|list| - 1] + [list[|list| - 1]];
    }
  }

  lemma {:induction false} ReplacedExactly(list: SlotList, entry: SlotEntry, other: Option<Slot>, found: bool, e: SlotEntry)
    ensures multiset(Replaced(list, entry, other, found))[e] ==
              (if Matches(e, entry.slot, other) then 0 else multiset(list)[e])
              + if e == entry && !found && Matched(list, entry.slot, other) != [] then 1 else 0
    decreases |list|
  {
    if list != [] {
      var init, last := list[..|list| - 1], list[|list| - 1];
      var found' := found || Matches(last, entry.slot, other);
      ReplacedExactly(init, entry, other, found', e);
      assert list == init + [last];
    }
  }

  /** The new entry comes in, what it replaces goes out, and nothing else does. */
  lemma UpdateConserves(list: SlotList, entry: SlotEntry, other: Option<Slot>)
    ensures multiset(Updated(list, entry, other)) + multiset(Matched(list, entry.slot, other)) ==
              multiset(list) + multiset{entry}
  {
    forall e: SlotEntry
      ensures multiset(Updated(list, entry, other))[e] + multiset(Matched(list, entry.slot, other))[e] ==
                multiset(list)[e] + multiset{entry}[e]
    {
      MatchedExactly(list, entry.slot, other, e);
      ReplacedExactly(list, entry, other, false, e);
    }
  }

  /** After an update: one entry for `slot`, none for the other slot, everything else as before. */
  lemma UpdatedSlots(list: SlotList, entry: SlotEntry, other: Option<Slot>)
    requires DistinctSlots(list)
    ensures DistinctSlots(Updated(list, entry, other))
    ensures forall e :: e in Updated(list, entry, other) <==>
              e == entry || (e in list && e.slot != entry.slot && other != Some(e.slot))
    ensures forall s: Slot :: s != entry.slot && other != Some(s) ==>
              LastAt(Updated(list, entry, other), s) == LastAt(list, s)
  {
    MatchedMembers(list, entry.slot, other);
    ReplacedMembers(list, entry, other, false);
    ReplacedKeepsDistinct(list, entry, other, false);
    assert (list + [entry])[..|list|] == list;
    forall s: Slot | s != entry.slot && other != Some(s)
      ensures LastAt(Updated(list, entry, other), s) == LastAt(list, s)
    {
      ReplacedKeepsLastAt(list, entry, other, false, s);
    }
  }

  /** The walk has come down to position `i`: what is above it is done. */
  ghost predicate Walked(list: SlotList, entry: SlotEntry, other: Option<Slot>, i: nat, current: SlotList, seen: SlotList) {
    && i <= |list| && i <= |current| && current[..i] == list[..i]
    && Replaced(list, entry, other, false) == Replaced(list[..i], entry, other, seen != []) + current[i..]
    && Matched(list, entry.slot, other) == seen + Matched(list[..i], entry.slot, other)
    && (seen == [] ==> current == list)
  }

  lemma WalkPast(list: SlotList, entry: SlotEntry, other: Option<Slot>, i: nat, i': nat, current: SlotList, seen: SlotList)
    requires Walked(list, entry, other, i', current, seen) && i' == i + 1 && !Matches(list[i], entry.slot, other)
    ensures Walked(list, entry, other, i, current, seen)
  {
    var init := list[..i];
    assert list[..i'][..i] == init && current[..i'][i] == list[i];
    assert current[i..] == [list[i]] + current[i'..];
  }

  lemma WalkMatch(list: SlotList, entry: SlotEntry, other: Option<Slot>, i: nat, i': nat, current: SlotList, seen: SlotList)
    requires Walked(list, entry, other, i', current, seen) && i' == i + 1 && Matches(list[i], entry.slot, other)
    ensures var current' := if seen == [] then current[i := entry] else current[..i] + current[i'..];
            Walked(list, entry, other, i, current', seen + [list[i]])
  {
    var init := list[..i];
    assert list[..i'][..i] == init && current[..i'][..i] == init;
    var current' := if seen == [] then current[i := entry] else current[..i] + current[i'..];
    assert current'[..i] == init;
    if seen == [] {
      assert current'[i..] == [entry] + current[i'..];
    } else {
      assert current'[i..] == current[i'..];
    }
  }

  /** The variables of the walk; `current` is the list as it is being changed. */
  datatype Walk = Walk(current: SlotList, reclaimed: SlotList, addref: bool, foundSlot: bool, foundOther: bool)

  ghost predicate HasSlot(list: SlotList, slot: Slot) {
    exists e :: e in list && e.slot == slot
  }

  /** Which of the two slots have been seen, each at most once. */
  ghost predicate Finds(foundSlot: bool, foundOther: bool, slot: Slot, other: Option<Slot>, seen: SlotList) {
    && DistinctSlots(seen) && (forall e :: e in seen ==> Matches(e, slot, other))
    && (foundSlot <==> HasSlot(seen, slot))
    && (foundOther <==> other.Some? && other.value != slot && HasSlot(seen, other.value))
  }

  /** What has been reclaimed for the matches seen so far, and whether a reference is still due. */
  ghost predicate Settles(w: Walk, info: Info, reclaims: SlotList, reclaim: UpsertReclaim, seen: SlotList) {
    && w.reclaimed == reclaims + (if reclaim.PopulateReclaims? then seen else [])
    && w.addref == (!info.IsCached() && AllCached(seen))
    && (reclaim.PreviousSlotEntryWasCached? ==> AllCached(seen))
  }

  ghost predicate Tracks(w: Walk, entry: SlotEntry, other: Option<Slot>, reclaims: SlotList, reclaim: UpsertReclaim, seen: SlotList) {
    Finds(w.foundSlot, w.foundOther, entry.slot, other, seen) && Settles(w, entry.info, reclaims, reclaim, seen)
  }

  lemma FoundExactly(foundSlot: bool, foundOther: bool, slot: Slot, other: Option<Slot>, seen: SlotList)
    requires Finds(foundSlot, foundOther, slot, other, seen)
    ensures foundSlot || foundOther <==> seen != []
  {
    if seen != [] {
      assert seen[0] in seen;
      assert HasSlot(seen, seen[0].slot);
    }
  }

  lemma FindsMore(foundSlot: bool, foundOther: bool, slot: Slot, other: Option<Slot>, seen: SlotList, e: SlotEntry)
    requires Finds(foundSlot, foundOther, slot, other, seen) && Matches(e, slot, other)
    ensures DistinctSlots(seen + [e]) <==> !(if e.slot == slot then foundSlot else foundOther)
    ensures DistinctSlots(seen + [e]) ==>
              Finds(foundSlot || e.slot == slot, foundOther || e.slot != slot, slot, other, seen + [e])
  {
    SeenMore(seen, e, slot);
    if e.slot != slot {
      SeenMore(seen, e, e.slot);
    } else if other.Some? {
      SeenMore(seen, e, other.value);
    }
  }

  lemma SettlesMore(w: Walk, info: Info, reclaims: SlotList, reclaim: UpsertReclaim, seen: SlotList, e: SlotEntry, w': Walk)
    requires Settles(w, info, reclaims, reclaim, seen)
    requires w'.reclaimed == (if reclaim.PopulateReclaims? then w.reclaimed + [e] else w.reclaimed)
    requires w'.addref == (w.addref && e.info.IsCached())
    ensures (reclaim.PreviousSlotEntryWasCached? ==> e.info.IsCached()) ==> Settles(w', info, reclaims, reclaim, seen + [e])
  {
    assert forall x :: x in seen + [e] <==> x in seen || x == e;
  }

  lemma SeenMore(seen: SlotList, e: SlotEntry, slot: Slot)
    requires DistinctSlots(seen)
    ensures HasSlot(seen + [e], slot) <==> HasSlot(seen, slot) || e.slot == slot
    ensures DistinctSlots(seen + [e]) <==> !HasSlot(seen, e.slot)
    ensures forall x :: x in seen + [e] <==> x in seen || x == e
  {
    var more := seen + [e];
    assert more[..|seen|] == seen && e in more;
  }

  /** One match: the first is replaced in place, the second is removed; the assertions of the source are the panics. */
  method TakeMatch(list: SlotList, entry: SlotEntry, other: Option<Slot>, reclaims: SlotList, reclaim: UpsertReclaim,
                   i: nat, above: nat, w: Walk, ghost seen: SlotList)
    returns (r: Outcome<Walk>)
    requires above == i + 1 && Walked(list, entry, other, above, w.current, seen)
    requires Tracks(w, entry, other, reclaims, reclaim, seen) && Matches(list[i], entry.slot, other)
    ensures var more := seen + [list[i]];
            if DistinctSlots(more) && (reclaim.PreviousSlotEntryWasCached? ==> list[i].info.IsCached()) then
              r.Returned? && Walked(list, entry, other, i, r.value.current, more)
              && Tracks(r.value, entry, other, reclaims, reclaim, more)
            else r == Panicked
  {
    var e := list[i];
    var matchedSlot := e.slot == entry.slot;
    WalkMatch(list, entry, other, i, above, w.current, seen);
    FoundExactly(w.foundSlot, w.foundOther, entry.slot, other, seen);
    FindsMore(w.foundSlot, w.foundOther, entry.slot, other, seen, e);
    var current := if !(w.foundSlot || w.foundOther) then w.current[i := entry] else w.current[..i] + w.current[above..];
    var w' := Walk(current, if reclaim.PopulateReclaims? then w.reclaimed + [e] else w.reclaimed,
                   w.addref && e.info.IsCached(), w.foundSlot || matchedSlot, w.foundOther || !matchedSlot);
    SettlesMore(w, entry.info, reclaims, reclaim, seen, e, w');
    if (w.foundSlot && matchedSlot) || (!matchedSlot && w.foundOther) {
      return Panicked;
    }
    if reclaim.PreviousSlotEntryWasCached? && !e.info.IsCached() {
      return Panicked;
    }
    r := Returned(w');
  }

  /** What is already there shows that an update panics. */
  lemma PanicIsKnown(seen: SlotList, e: SlotEntry, rest: SlotList)
    ensures DistinctSlots(seen + [e] + rest) ==> DistinctSlots(seen + [e])
    ensures AllCached(seen + [e] + rest) ==> e.info.IsCached()
  {
    DistinctPrefix(seen + [e], rest);
    assert e in seen + [e] + rest;
  }

  lemma {:induction false} DistinctPrefix(a: SlotList, b: SlotList)
    ensures DistinctSlots(a + b) ==> DistinctSlots(a)
    decreases |b|
  {
    if b == [] {
      assert a + b == a;
    } else {
      assert (a + b)[..|a + b| - 1] == a + b[..|b| - 1];
      DistinctPrefix(a, b[..|b| - 1]);
    }
  }

  /** An update that meets none of the assertions. */
  ghost predicate CanUpdate(matched: SlotList, reclaim: UpsertReclaim) {
    DistinctSlots(matched) && (reclaim.PreviousSlotEntryWasCached? ==> AllCached(matched))
  }

  ghost predicate InWalk(list: SlotList, entry: SlotEntry, other: Option<Slot>, reclaims: SlotList, reclaim: UpsertReclaim,
                         i: nat, w: Walk, seen: SlotList) {
    Walked(list, entry, other, i, w.current, seen) && Tracks(w, entry, other, reclaims, reclaim, seen)
  }

  lemma WalkStarts(list: SlotList, entry: SlotEntry, other: Option<Slot>, reclaims: SlotList, reclaim: UpsertReclaim)
    ensures InWalk(list, entry, other, reclaims, reclaim, |list|, Walk(list, reclaims, !entry.info.IsCached(), false, false), [])
  {
    assert list[..|list|] == list && reclaims + [] == reclaims;
  }

  /** One entry of the walk; a panic exactly shows in the matches. */
  method WalkOne(list: SlotList, entry: SlotEntry, other: Option<Slot>, reclaims: SlotList, reclaim: UpsertReclaim,
                 i: nat, above: nat, w: Walk, ghost seen: SlotList)
    returns (r: Outcome<Walk>, ghost seen': SlotList)
    requires above == i + 1 && InWalk(list, entry, other, reclaims, reclaim, above, w, seen)
    ensures r.Returned? ==> InWalk(list, entry, other, reclaims, reclaim, i, r.value, seen')
    ensures r.Panicked? ==> !CanUpdate(Matched(list, entry.slot, other), reclaim)
  {
    if Matches(list[i], entry.slot, other) {
      MatchedSplit(list, entry.slot, other, i, above, seen);
      PanicIsKnown(seen, list[i], Matched(list[..i], entry.slot, other));
      r := TakeMatch(list, entry, other, reclaims, reclaim, i, above, w, seen);
      seen' := seen + [list[i]];
    } else {
      WalkPast(list, entry, other, i, above, w.current, seen);
      r, seen' := Returned(w), seen;
    }
  }

  /** At the end of the walk, the variables are what an update gives. */
  lemma WalkEnds(list: SlotList, entry: SlotEntry, other: Option<Slot>, reclaims: SlotList, reclaim: UpsertReclaim,
                 i: nat, w: Walk, seen: SlotList)
    requires i == 0 && InWalk(list, entry, other, reclaims, reclaim, i, w, seen)
    ensures var matched := Matched(list, entry.slot, other);
            && CanUpdate(matched, reclaim)
            && w.reclaimed == reclaims + (if reclaim.PopulateReclaims? then matched else [])
            && w.addref == (!entry.info.IsCached() && AllCached(matched))
            && Updated(list, entry, other) == if w.foundSlot || w.foundOther then w.current else w.current + [entry]
  {
    FoundExactly(w.foundSlot, w.foundOther, entry.slot, other, seen);
    assert list[..i] == [] && seen + [] == seen && w.current[i..] == w.current && [] + w.current == w.current;
  }

  /**
   `update_slot_list`: walk the list from the end, replace the first match in place and remove the
   second. The result says what was reclaimed and whether the account gains a reference.
   */
  method UpdateSlotList(list: SlotList, slot: Slot, info: Info, otherSlot: Option<Slot>, reclaims: SlotList,
                        reclaim: UpsertReclaim)
    returns (r: Outcome<Walk>)
    ensures var matched := Matched(list, slot, otherSlot);
            if CanUpdate(matched, reclaim) then
              && r.Returned?
              && r.value.current == Updated(list, SlotEntry(slot, info), otherSlot)
              && r.value.reclaimed == reclaims + (if reclaim.PopulateReclaims? then matched else [])
              && r.value.addref == (!info.IsCached() && AllCached(matched))
            else r == Panicked
  {
    var entry := SlotEntry(slot, info);
    var w := Walk(list, reclaims, !info.IsCached(), false, false);
    ghost var seen: SlotList := [];
    WalkStarts(list, entry, otherSlot, reclaims, reclaim);
    var i: nat := |list|;
    while i > 0
      invariant InWalk(list, entry, otherSlot, reclaims, reclaim, i, w, seen)
    {
      var below: nat, next := i - 1, Panicked;
      next, seen := WalkOne(list, entry, otherSlot, reclaims, reclaim, below, i, w, seen);
      if next.Panicked? {
        return Panicked;
      }
      w, i := next.value, below;
    }
    WalkEnds(list, entry, otherSlot, reclaims, reclaim, i, w, seen);
    r := Returned(if !w.foundSlot && !w.foundOther then w.(current := w.current + [entry]) else w);
  }

  lemma MatchedSplit(list: SlotList, slot: Slot, other: Option<Slot>, i: nat, above: nat, seen: SlotList)
    requires above == i + 1 <= |list| && Matches(list[i], slot, other)
    requires Matched(list, slot, other) == seen + Matched(list[..above], slot, other)
    ensures Matched(list, slot, other) == seen + [list[i]] + Matched(list[..i], slot, other)
  {
    assert list[..above][..i] == list[..i];
  }

  lemma {:induction false} DistinctCons(e: SlotEntry, rest: SlotList)
    requires DistinctSlots(rest) && forall x :: x in rest ==> x.slot != e.slot
    ensures DistinctSlots([e] + rest)
    decreases |rest|
  {
    if rest == [] {
      assert [e] + rest == [e] && [e][..0] == rest;
    } else {
      var init := rest[..|rest| - 1];
      DistinctCons(e, init);
      assert ([e] + rest)[..|rest|] == [e] + init;
    }
  }

  /** In a list with one entry per slot, no slot is matched twice. */
  lemma {:induction false} MatchedOnce(list: SlotList, slot: Slot, other: Option<Slot>)
    requires DistinctSlots(list)
    ensures DistinctSlots(Matched(list, slot, other))
    decreases |list|
  {
    if list != [] {
      var init, e := list[..|list| - 1], list[|list| - 1];
      MatchedOnce(init, slot, other);
      MatchedMembers(init, slot, other);
      DistinctCons(e, Matched(init, slot, other));
      assert [] + Matched(init, slot, other) == Matched(init, slot, other);
    }
  }

  // ---------------------------------------------------------------- removing whole slots

  function WithoutSlots(list: SlotList, slots: set<Slot>): SlotList {
    if list == [] then []
    else
      var e := list[|list| - 1];
      WithoutSlots(list[..|list| - 1], slots) + if e.slot in slots then [] else [e]
  }

  function InSlots(list: SlotList, slots: set<Slot>): SlotList {
    if list == [] then []
    else
      var e := list[|list| - 1];
      InSlots(list[..|list| - 1], slots) + if e.slot in slots then [e] else []
  }

  method RetainOutside(list: SlotList, slots: set<Slot>, reclaims: SlotList) returns (list': SlotList, reclaims': SlotList)
    ensures list' == WithoutSlots(list, slots) && reclaims' == reclaims + InSlots(list, slots)
  {
    list', reclaims' := [], reclaims;
    for i := 0 to |list|
      invariant list' == WithoutSlots(list[..i], slots) && reclaims' == reclaims + InSlots(list[..i], slots)
    {
      assert list[..i + 1][..i] == list[..i];
      if list[i].slot in slots {
        reclaims' := reclaims' + [list[i]];
      } else {
        list' := list' + [list[i]];
      }
    }
    assert list[..|list|] == list;
  }

  lemma {:induction false} WithoutSlotsKeepsRest(list: SlotList, slots: set<Slot>)
    ensures forall e :: e in WithoutSlots(list, slots) <==> e in list && e.slot !in slots
    ensures DistinctSlots(list) ==> DistinctSlots(WithoutSlots(list, slots))
    decreases |list|
  {
    if list != [] {
      var init, e := list[..|list| - 1], list[|list| - 1];
      WithoutSlotsKeepsRest(init, slots);
      assert list == init + [e];
      var front := WithoutSlots(init, slots);
      assert (front + [e])[..|front|] == front && front + [] == front;
    }
  }

  lemma {:induction false} WithoutSlotsConserves(list: SlotList, slots: set<Slot>)
    ensures multiset(WithoutSlots(list, slots)) + multiset(InSlots(list, slots)) == multiset(list)
    decreases |list|
  {
    if list != [] {
      var init, e := list[..|list| - 1], list[|list| - 1];
      WithoutSlotsConserves(init, slots);
      assert list == init + [e];
      OneGoesEitherWay(init, e, WithoutSlots(init, slots), InSlots(init, slots));
    }
  }

  lemma {:induction false} WithoutSlotsKeepsLastAt(list: SlotList, slots: set<Slot>, s: Slot)
    requires s !in slots
    ensures LastAt(WithoutSlots(list, slots), s) == LastAt(list, s)
    decreases |list|
  {
    if list != [] {
      var e, front := list[|list| - 1], WithoutSlots(list[..|list| - 1], slots);
      WithoutSlotsKeepsLastAt(list[..|list| - 1], slots, s);
      if e.slot in slots {
        assert WithoutSlots(list, slots) == front;
      } else {
        LastAtSnoc(front, e, s);
      }
    }
  }

  lemma {:induction false} PurgeKeepsDistinct(list: SlotList, clean: Slot, newest: Slot)
    requires DistinctSlots(list)
    ensures DistinctSlots(Kept(list, clean, newest))
    decreases |list|
  {
    if list != [] {
      var init, e := list[..|list| - 1], list[|list| - 1];
      PurgeKeepsDistinct(init, clean, newest);
      PurgeMembers(init, clean, newest);
      var front := Kept(init, clean, newest);
      assert (front + [e])[..|front|] == front && front + [] == front;
    }
  }

  /** With one entry per slot, that entry is the last. */
  lemma {:induction false} LastAtOnly(list: SlotList, e: SlotEntry)
    requires DistinctSlots(list) && e in list
    ensures LastAt(list, e.slot) == Some(e)
    decreases |list|
  {
    if e != list[|list| - 1] {
      assert list == list[..|list| - 1] + [list[|list| - 1]];
      LastAtOnly(list[..|list| - 1], e);
    }
  }
}
