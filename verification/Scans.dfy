/**
 Scans against a changing index, as a state machine.

 A scan looks at its bank, registers at the newest root, resolves keys one at a time, unregisters and looks
 at its bank again, while other threads write accounts, add roots, clean keys, remove dead slots and dump
 forks. A clean computes its bound once and cleans keys later, so scans may begin in between. The theorem
 is that a scan whose bank was not removed resolves every key, at any time, as it would have done when it
 began.
 */
module Scans {
  import opened Wrappers
  import opened Pubkeys
  import opened SlotLists
  import opened AccountsIndexes

  type ScanId = nat
  type CleanId = nat

  /** A registered scan: its root bound, the ancestors it uses, its bank, and the index when it began. */
  datatype Scan = Scan(maxRoot: Slot, ancestors: set<Slot>, bank: BankId, begun: Index)

  /**
   A scan has been admitted for its bank, then it is registered and reads, then it is unregistered and
   looks at its bank again: `admitted`, `scans`, `ended`. `cleans` holds the bounds of the cleans under way.
   */
  datatype Machine = Machine(ix: Index, admitted: map<ScanId, BankId>, scans: map<ScanId, Scan>, ended: map<ScanId, Scan>,
                             cleans: map<CleanId, Option<Slot>>)

  datatype Step =
    | AdmitScan(scan: ScanId, bank: BankId)
    | BeginScan(scan: ScanId, ancestors: set<Slot>)
    | EndScan(scan: ScanId)
    | FinishScan(scan: ScanId)
    | BeginClean(clean: CleanId, proposed: Option<Slot>, minScanRoot: Option<Slot>)
    | CleanKey(clean: CleanId, key: Pubkey)
    | EndClean(clean: CleanId)
    | AddRoot(slot: Slot)
    | CleanDeadSlot(slot: Slot)
    | Upsert(key: Pubkey, entry: SlotEntry, other: Option<Slot>)
    | RemoveBanks(banks: set<BankId>)
    | PurgeSlots(key: Pubkey, slots: set<Slot>)
    | DropBank(bank: BankId)

  /** The ancestors a scan uses: none, when the newest root is not among them. */
  function ScanAncestors(ancestors: set<Slot>, maxRoot: Slot): set<Slot> {
    if maxRoot in ancestors then ancestors else {}
  }

  /** What the scan sees of the index now. */
  function ScanView(scan: Scan, ix: Index): View {
    View(ix.roots, scan.ancestors, scan.maxRoot)
  }

  /** What the scan makes of a key now. */
  function Look(scan: Scan, ix: Index, key: Pubkey): Option<SlotEntry> {
    Resolve(ScanView(scan, ix), ix.ListOf(key))
  }

  /** The scan has not been disturbed: it resolves every key as when it began. */
  ghost predicate Isolated(scan: Scan, ix: Index) {
    forall key: Pubkey :: Look(scan, ix, key) == Look(scan, scan.begun, key)
  }

  /** How a scan ends. */
  datatype ScanResult = Ok | SlotRemoved(bank: BankId)

  function EndOfScan(scan: Scan, ix: Index): ScanResult {
    if scan.bank in ix.removedBanks then SlotRemoved(scan.bank) else Ok
  }

  // ---------------------------------------------------------------- steps

  /** What the code itself enforces, by its locks and assertions. */
  ghost predicate Possible(m: Machine, step: Step) {
    match step
    case AdmitScan(id, bank) => id !in m.admitted && id !in m.scans && id !in m.ended && bank !in m.ix.removedBanks
    case BeginScan(id, _) => id in m.admitted && id !in m.scans
    case EndScan(id) => id in m.scans && id !in m.ended
    case FinishScan(id) => id in m.ended
    case BeginClean(id, _, minScanRoot) => id !in m.cleans && m.ix.IsMinScanRoot(minScanRoot)
    case CleanKey(id, _) => id in m.cleans
    case EndClean(id) => id in m.cleans
    case AddRoot(slot) => slot >= m.ix.maxRoot
    case PurgeSlots(_, slots) => slots !! m.ix.roots
    case _ => true
  }

  /** A slot of a fork is rooted, or nothing is stored in it. */
  ghost predicate RootedOrUnused(ix: Index, slot: Slot) {
    slot in ix.roots || ix.Unused(slot)
  }

  /** No scan that is still good looks at this slot. */
  ghost predicate Unwatched(m: Machine, slot: Slot) {
    forall id :: id in m.scans && m.scans[id].bank !in m.ix.removedBanks ==> !ScanView(m.scans[id], m.ix).Sees(slot)
  }

  /** The scan is one of this bank, in whatever phase. */
  ghost predicate Holds(m: Machine, id: ScanId, bank: BankId) {
    || (id in m.admitted && m.admitted[id] == bank)
    || (id in m.scans && m.scans[id].bank == bank)
    || (id in m.ended && m.ended[id].bank == bank)
  }

  /** What the callers have to ensure. */
  ghost predicate Disciplined(m: Machine, step: Step) {
    match step
    case BeginScan(id, ancestors) =>
      // the part of the fork up to the newest root is rooted, unless the fork has been removed
      id in m.admitted && m.admitted[id] !in m.ix.removedBanks ==>
        forall slot :: slot in ScanAncestors(ancestors, m.ix.maxRoot) && slot <= m.ix.maxRoot ==> RootedOrUnused(m.ix, slot)
    case BeginClean(_, proposed, minScanRoot) =>
      // cleaning happens after the newest root has been set, and not beyond it
      var bound := MaxCleanRoot(minScanRoot, proposed);
      bound.Some? && bound.value <= m.ix.maxRoot
    case CleanDeadSlot(slot) =>
      // a dead slot is an older one that nothing refers to
      slot != m.ix.maxRoot && m.ix.Unused(slot)
    case Upsert(_, entry, other) =>
      // frozen and rooted banks are not written to while somebody reads them
      Unwatched(m, entry.slot) && (other.Some? ==> Unwatched(m, other.value))
    case PurgeSlots(_, slots) =>
      // the banks of a fork are marked before their slots are purged
      forall slot :: slot in slots ==> Unwatched(m, slot)
    case DropBank(bank) =>
      // a scan holds on to its bank from beginning to end
      forall id :: !Holds(m, id, bank)
    case _ => true
  }

  function Next(m: Machine, step: Step): Machine
    requires Possible(m, step)
  {
    match step
    case AdmitScan(id, bank) => m.(admitted := m.admitted[id := bank])
    case BeginScan(id, ancestors) =>
      var scan := Scan(m.ix.maxRoot, ScanAncestors(ancestors, m.ix.maxRoot), m.admitted[id], m.ix);
      m.(ix := m.ix.RegisterScan(), admitted := m.admitted - {id}, scans := m.scans[id := scan])
    case EndScan(id) =>
      var root := m.scans[id].maxRoot;
      m.(ix := if m.ix.ScansAt(root) > 0 then m.ix.UnregisterScan(root) else m.ix,
         scans := m.scans - {id}, ended := m.ended[id := m.scans[id]])
    case FinishScan(id) => m.(ended := m.ended - {id})
    case BeginClean(id, proposed, minScanRoot) => m.(cleans := m.cleans[id := MaxCleanRoot(minScanRoot, proposed)])
    case CleanKey(id, key) => m.(ix := m.ix.CleanKey(key, m.cleans[id]))
    case EndClean(id) => m.(cleans := m.cleans - {id})
    case AddRoot(slot) => m.(ix := m.ix.AddRoot(slot))
    case CleanDeadSlot(slot) => m.(ix := m.ix.CleanDeadSlot(slot))
    case Upsert(key, entry, other) => m.(ix := m.ix.Upsert(key, entry, other))
    case RemoveBanks(banks) => m.(ix := m.ix.RemoveBanks(banks))
    case PurgeSlots(key, slots) => m.(ix := m.ix.PurgeSlots(key, slots))
    case DropBank(bank) => m.(ix := m.ix.DropBank(bank))
  }

  // ---------------------------------------------------------------- invariant

  /** The scans that are registered at a root. */
  ghost function IdsAt(scans: map<ScanId, Scan>, root: Slot): set<ScanId> {
    set id | id in scans && scans[id].maxRoot == root
  }

  ghost function CountAt(scans: map<ScanId, Scan>, root: Slot): nat {
    |IdsAt(scans, root)|
  }

  /** The registrations count the scans under way, per root. */
  ghost predicate Counted(m: Machine) {
    forall root: Slot :: m.ix.ScansAt(root) == CountAt(m.scans, root) && (root in m.ix.scanRoots ==> m.ix.scanRoots[root] > 0)
  }

  /** The newest root is alive, and no root is newer. */
  ghost predicate RootsValid(ix: Index) {
    ix.maxRoot in ix.roots && forall root :: root in ix.roots ==> root <= ix.maxRoot
  }

  ghost predicate ListsValid(ix: Index) {
    forall key: Pubkey :: DistinctSlots(ix.ListOf(key))
  }

  /** What holds of every scan that is still good. */
  ghost predicate ScanValid(m: Machine, scan: Scan) {
    && scan.maxRoot <= m.ix.maxRoot
    && (forall slot :: slot in scan.ancestors && slot <= scan.maxRoot ==> RootedOrUnused(m.ix, slot))
    && Isolated(scan, m.ix)
  }

  ghost predicate ScansValid(m: Machine) {
    forall id :: id in m.scans ==>
      m.scans[id].maxRoot <= m.ix.maxRoot && (m.scans[id].bank in m.ix.removedBanks || ScanValid(m, m.scans[id]))
  }

  /** No clean goes beyond a root that a scan depends on, now or later. */
  ghost predicate CleansValid(m: Machine) {
    forall id :: id in m.cleans ==>
      && m.cleans[id].Some? && m.cleans[id].value <= m.ix.maxRoot
      && forall s :: s in m.scans ==> m.cleans[id].value <= m.scans[s].maxRoot
  }

  ghost predicate Inv(m: Machine) {
    RootsValid(m.ix) && ListsValid(m.ix) && Counted(m) && ScansValid(m) && CleansValid(m)
  }

  // ---------------------------------------------------------------- every step keeps the invariant

  /** The index changed, but not for this reader. */
  ghost predicate Undisturbed(scan: Scan, ix: Index, ix': Index) {
    && (forall key: Pubkey :: Look(scan, ix', key) == Look(scan, ix, key))
    && (forall slot :: slot in scan.ancestors && slot <= scan.maxRoot && RootedOrUnused(ix, slot) ==>
          RootedOrUnused(ix', slot))
  }

  lemma UndisturbedStaysValid(m: Machine, m': Machine, scan: Scan)
    requires ScanValid(m, scan) && Undisturbed(scan, m.ix, m'.ix) && m.ix.maxRoot <= m'.ix.maxRoot
    ensures ScanValid(m', scan)
  {
    forall key: Pubkey
      ensures Look(scan, m'.ix, key) == Look(scan, scan.begun, key)
    {
      assert Look(scan, m'.ix, key) == Look(scan, m.ix, key);
      assert Look(scan, m.ix, key) == Look(scan, scan.begun, key);
    }
  }

  /** A change of one list, to entries that were there before or in slots the scan does not see. */
  lemma OneListUndisturbed(scan: Scan, ix: Index, key: Pubkey, list: SlotList, keepEmpty: bool)
    requires Resolve(ScanView(scan, ix), list) == Look(scan, ix, key)
    requires forall e :: e in list ==> e in ix.ListOf(key) || !ScanView(scan, ix).Sees(e.slot)
    ensures Undisturbed(scan, ix, ix.WithList(key, list, keepEmpty))
  {
    var ix' := ix.WithList(key, list, keepEmpty);
    forall k: Pubkey
      ensures Look(scan, ix', k) == Look(scan, ix, k)
    {
      ListOfOther(ix, key, list, keepEmpty, k);
    }
    forall slot | slot in scan.ancestors && slot <= scan.maxRoot && RootedOrUnused(ix, slot)
      ensures RootedOrUnused(ix', slot)
    {
      if ix.Unused(slot) {
        forall k: Pubkey, e | e in ix'.ListOf(k)
          ensures e.slot != slot
        {
          ListOfOther(ix, key, list, keepEmpty, k);
          assert ScanView(scan, ix).Sees(slot);
        }
      }
    }
  }

  lemma CleanKeyUndisturbed(m: Machine, scan: Scan, key: Pubkey, bound: Slot)
    requires ScanValid(m, scan) && bound <= scan.maxRoot
    ensures Undisturbed(scan, m.ix, m.ix.CleanKey(key, Some(bound)))
  {
    var v, list := ScanView(scan, m.ix), m.ix.ListOf(key);
    forall e | e in list && e.slot in v.ancestors && e.slot < bound
      ensures e.slot in v.roots
    {
      assert RootedOrUnused(m.ix, e.slot);
    }
    CleaningPreservesReaders(v, list, Some(bound), m.ix.maxRoot);
    PurgeMembers(list, bound, NewestRoot(m.ix.roots, list, Some(bound)));
    OneListUndisturbed(scan, m.ix, key, Kept(list, bound, NewestRoot(m.ix.roots, list, Some(bound))), false);
  }

  lemma UpsertUndisturbed(m: Machine, scan: Scan, key: Pubkey, entry: SlotEntry, other: Option<Slot>)
    requires ListsValid(m.ix) && !ScanView(scan, m.ix).Sees(entry.slot)
    requires other.Some? ==> !ScanView(scan, m.ix).Sees(other.value)
    ensures Undisturbed(scan, m.ix, m.ix.Upsert(key, entry, other))
  {
    var v, list := ScanView(scan, m.ix), m.ix.ListOf(key);
    UpdatedSlots(list, entry, other);
    SameToReader(v, list, v, Updated(list, entry, other));
    OneListUndisturbed(scan, m.ix, key, Updated(list, entry, other), false);
  }

  lemma PurgeSlotsUndisturbed(m: Machine, scan: Scan, key: Pubkey, slots: set<Slot>)
    requires forall slot :: slot in slots ==> !ScanView(scan, m.ix).Sees(slot)
    ensures Undisturbed(scan, m.ix, m.ix.PurgeSlots(key, slots))
  {
    var v, list := ScanView(scan, m.ix), m.ix.ListOf(key);
    forall s: Slot | v.Sees(s)
      ensures LastAt(list, s) == LastAt(WithoutSlots(list, slots), s)
    {
      WithoutSlotsKeepsLastAt(list, slots, s);
    }
    WithoutSlotsKeepsRest(list, slots);
    SameToReader(v, list, v, WithoutSlots(list, slots));
    OneListUndisturbed(scan, m.ix, key, WithoutSlots(list, slots), key in m.ix.lists);
  }

  /** Different roots, but the same answer for every slot in use. */
  lemma RootsUndisturbed(scan: Scan, ix: Index, ix': Index)
    requires ix'.lists == ix.lists
    requires forall slot: Slot :: !ix.Unused(slot) ==> (ScanView(scan, ix).Sees(slot) <==> ScanView(scan, ix').Sees(slot))
    requires forall slot: Slot :: RootedOrUnused(ix, slot) ==> RootedOrUnused(ix', slot)
    ensures Undisturbed(scan, ix, ix')
  {
    forall key: Pubkey
      ensures Look(scan, ix', key) == Look(scan, ix, key)
    {
      var list := ix.ListOf(key);
      assert ix'.ListOf(key) == list;
      forall e | e in list
        ensures ScanView(scan, ix).Sees(e.slot) <==> ScanView(scan, ix').Sees(e.slot)
      {
        assert !ix.Unused(e.slot);
      }
      SameToReader(ScanView(scan, ix), list, ScanView(scan, ix'), list);
    }
  }

  lemma AddRootUndisturbed(m: Machine, scan: Scan, slot: Slot)
    requires RootsValid(m.ix) && scan.maxRoot <= m.ix.maxRoot <= slot
    ensures Undisturbed(scan, m.ix, m.ix.AddRoot(slot))
  {
    var ix' := m.ix.AddRoot(slot);
    forall s: Slot | RootedOrUnused(m.ix, s)
      ensures RootedOrUnused(ix', s)
    {
      if m.ix.Unused(s) {
        assert ix'.Unused(s) by {
          assert forall key: Pubkey :: ix'.ListOf(key) == m.ix.ListOf(key);
        }
      }
    }
    RootsUndisturbed(scan, m.ix, ix');
  }

  lemma CleanDeadSlotUndisturbed(m: Machine, scan: Scan, slot: Slot)
    requires m.ix.Unused(slot)
    ensures Undisturbed(scan, m.ix, m.ix.CleanDeadSlot(slot))
  {
    var ix' := m.ix.CleanDeadSlot(slot);
    assert forall key: Pubkey :: ix'.ListOf(key) == m.ix.ListOf(key);
    forall s: Slot | RootedOrUnused(m.ix, s)
      ensures RootedOrUnused(ix', s)
    {
      if s == slot || m.ix.Unused(s) {
        assert ix'.Unused(s);
      }
    }
    RootsUndisturbed(scan, m.ix, ix');
  }

  /** The step does not write to or purge a slot that the scan sees. */
  ghost predicate Avoids(scan: Scan, ix: Index, step: Step) {
    match step
    case Upsert(_, entry, other) =>
      !ScanView(scan, ix).Sees(entry.slot) && (other.Some? ==> !ScanView(scan, ix).Sees(other.value))
    case PurgeSlots(_, slots) => forall slot :: slot in slots ==> !ScanView(scan, ix).Sees(slot)
    case _ => true
  }

  /** Apart from cleaning, no step disturbs a reader that it avoids. */
  lemma StepUndisturbed(m: Machine, step: Step, scan: Scan)
    requires RootsValid(m.ix) && ListsValid(m.ix) && scan.maxRoot <= m.ix.maxRoot
    requires Possible(m, step) && Disciplined(m, step) && !step.CleanKey? && Avoids(scan, m.ix, step)
    ensures Undisturbed(scan, m.ix, Next(m, step).ix)
  {
    if step.Upsert? {
      UpsertUndisturbed(m, scan, step.key, step.entry, step.other);
    } else if step.PurgeSlots? {
      PurgeSlotsUndisturbed(m, scan, step.key, step.slots);
    } else if step.AddRoot? {
      AddRootUndisturbed(m, scan, step.slot);
    } else if step.CleanDeadSlot? {
      CleanDeadSlotUndisturbed(m, scan, step.slot);
    } else {
      SameListsUndisturbed(scan, m.ix, Next(m, step).ix);
    }
  }

  /** Disciplined steps avoid the scans that are good. */
  lemma GoodScansAreAvoided(m: Machine, step: Step, id: ScanId)
    requires Disciplined(m, step) && id in m.scans && m.scans[id].bank !in m.ix.removedBanks
    ensures Avoids(m.scans[id], m.ix, step)
  {
    if step.PurgeSlots? {
      forall slot | slot in step.slots
        ensures !ScanView(m.scans[id], m.ix).Sees(slot)
      {
        assert Unwatched(m, slot);
      }
    }
  }

  /** A bank that is marked as removed stays so while a scan holds it. */
  lemma RemovedStaysRemoved(m: Machine, step: Step, id: ScanId, bank: BankId)
    requires Possible(m, step) && Disciplined(m, step) && Holds(m, id, bank) && bank in m.ix.removedBanks
    ensures bank in Next(m, step).ix.removedBanks
  {
  }

  /** The step disturbs no scan that is good. */
  ghost predicate Spares(m: Machine, step: Step)
    requires Possible(m, step)
  {
    forall id :: id in m.scans && m.scans[id].bank !in m.ix.removedBanks ==>
      Undisturbed(m.scans[id], m.ix, Next(m, step).ix)
  }

  lemma StepSparesScans(m: Machine, step: Step)
    requires RootsValid(m.ix) && ListsValid(m.ix) && ScansValid(m)
    requires Possible(m, step) && Disciplined(m, step) && !step.CleanKey?
    ensures Spares(m, step)
  {
    forall id | id in m.scans && m.scans[id].bank !in m.ix.removedBanks
      ensures Undisturbed(m.scans[id], m.ix, Next(m, step).ix)
    {
      GoodScansAreAvoided(m, step, id);
      StepUndisturbed(m, step, m.scans[id]);
    }
  }

  lemma CleanSparesScans(m: Machine, step: Step)
    requires Inv(m) && Possible(m, step) && step.CleanKey?
    ensures Spares(m, step)
  {
    forall id | id in m.scans && m.scans[id].bank !in m.ix.removedBanks
      ensures Undisturbed(m.scans[id], m.ix, Next(m, step).ix)
    {
      assert ScanValid(m, m.scans[id]);
      assert m.cleans[step.clean].value <= m.scans[id].maxRoot;
      CleanKeyUndisturbed(m, m.scans[id], step.key, m.cleans[step.clean].value);
    }
  }

  lemma SparedScanStaysValid(m: Machine, step: Step, id: ScanId)
    requires RootsValid(m.ix) && ScansValid(m) && Possible(m, step) && Disciplined(m, step) && Spares(m, step)
    requires id in m.scans && m.scans[id].bank !in Next(m, step).ix.removedBanks
    ensures m.scans[id].bank !in m.ix.removedBanks && ScanValid(Next(m, step), m.scans[id])
  {
    var m', scan := Next(m, step), m.scans[id];
    if scan.bank in m.ix.removedBanks {
      RemovedStaysRemoved(m, step, id, scan.bank);
    }
    assert ScanValid(m, scan) && Undisturbed(scan, m.ix, m'.ix);
    StepKeepsRoots(m, step);
    UndisturbedStaysValid(m, m', scan);
  }

  /** No step disturbs a scan that was good before and is good afterwards. */
  lemma ScanStaysValid(m: Machine, step: Step, id: ScanId)
    requires Inv(m) && Possible(m, step) && Disciplined(m, step)
    requires id in m.scans && m.scans[id].bank !in Next(m, step).ix.removedBanks
    ensures m.scans[id].bank !in m.ix.removedBanks && ScanValid(Next(m, step), m.scans[id])
  {
    StepSpares(m, step);
    SparedScanStaysValid(m, step, id);
  }

  lemma StepSpares(m: Machine, step: Step)
    requires Inv(m) && Possible(m, step) && Disciplined(m, step)
    ensures Spares(m, step)
  {
    if step.CleanKey? {
      CleanSparesScans(m, step);
    } else {
      StepSparesScans(m, step);
    }
  }

  lemma SameListsUndisturbed(scan: Scan, ix: Index, ix': Index)
    requires ix'.lists == ix.lists && ix'.roots == ix.roots
    ensures Undisturbed(scan, ix, ix')
  {
    assert forall key: Pubkey :: ix'.ListOf(key) == ix.ListOf(key);
    assert forall slot: Slot :: ix.Unused(slot) ==> ix'.Unused(slot);
  }

  lemma CountWith(scans: map<ScanId, Scan>, id: ScanId, scan: Scan, root: Slot)
    requires id !in scans
    ensures CountAt(scans[id := scan], root) == CountAt(scans, root) + if scan.maxRoot == root then 1 else 0
  {
    var ids := IdsAt(scans, root);
    assert IdsAt(scans[id := scan], root) == if scan.maxRoot == root then ids + {id} else ids;
  }

  lemma CountWithout(scans: map<ScanId, Scan>, id: ScanId, root: Slot)
    requires id in scans
    ensures CountAt(scans - {id}, root) == CountAt(scans, root) - if scans[id].maxRoot == root then 1 else 0
  {
    var rest := scans - {id};
    assert rest[id := scans[id]] == scans;
    CountWith(rest, id, scans[id], root);
  }

  lemma BeginKeepsCounted(m: Machine, id: ScanId, ancestors: set<Slot>)
    requires Counted(m) && Possible(m, BeginScan(id, ancestors))
    ensures Counted(Next(m, BeginScan(id, ancestors)))
  {
    var m' := Next(m, BeginScan(id, ancestors));
    forall root: Slot
      ensures m'.ix.ScansAt(root) == CountAt(m'.scans, root) && (root in m'.ix.scanRoots ==> m'.ix.scanRoots[root] > 0)
    {
      assert m.ix.ScansAt(root) == CountAt(m.scans, root);
      CountWith(m.scans, id, m'.scans[id], root);
    }
  }

  lemma EndKeepsCounted(m: Machine, id: ScanId)
    requires Counted(m) && Possible(m, EndScan(id))
    ensures Counted(Next(m, EndScan(id)))
  {
    var m' := Next(m, EndScan(id));
    ScanIsRegistered(m, id);
    forall root: Slot
      ensures m'.ix.ScansAt(root) == CountAt(m'.scans, root) && (root in m'.ix.scanRoots ==> m'.ix.scanRoots[root] > 0)
    {
      assert m.ix.ScansAt(root) == CountAt(m.scans, root);
      CountWithout(m.scans, id, root);
    }
  }

  lemma StepKeepsCounted(m: Machine, step: Step)
    requires Counted(m) && Possible(m, step)
    ensures Counted(Next(m, step))
  {
    if step.BeginScan? {
      BeginKeepsCounted(m, step.scan, step.ancestors);
    } else if step.EndScan? {
      EndKeepsCounted(m, step.scan);
    } else {
      var m' := Next(m, step);
      assert m'.scans == m.scans && m'.ix.scanRoots == m.ix.scanRoots;
      forall root: Slot
        ensures m'.ix.ScansAt(root) == CountAt(m'.scans, root) && (root in m'.ix.scanRoots ==> m'.ix.scanRoots[root] > 0)
      {
        assert m.ix.ScansAt(root) == CountAt(m.scans, root);
      }
    }
  }

  lemma ScanIsRegistered(m: Machine, id: ScanId)
    requires Counted(m) && id in m.scans
    ensures m.scans[id].maxRoot in m.ix.scanRoots
  {
    var root := m.scans[id].maxRoot;
    assert id in IdsAt(m.scans, root);
    assert m.ix.ScansAt(root) == CountAt(m.scans, root);
  }

  lemma StepKeepsLists(m: Machine, step: Step)
    requires ListsValid(m.ix) && Possible(m, step)
    ensures ListsValid(Next(m, step).ix)
  {
    var m' := Next(m, step);
    forall k: Pubkey
      ensures DistinctSlots(m'.ix.ListOf(k))
    {
      assert DistinctSlots(m.ix.ListOf(k));
      match step
      case CleanKey(id, key) =>
        var list, bound := m.ix.ListOf(key), m.cleans[id];
        PurgeKeepsDistinct(list, CleanRoot(bound, m.ix.maxRoot), NewestRoot(m.ix.roots, list, bound));
        ListOfOther(m.ix, key, Kept(list, CleanRoot(bound, m.ix.maxRoot), NewestRoot(m.ix.roots, list, bound)), false, k);
      case Upsert(key, entry, other) =>
        UpdatedSlots(m.ix.ListOf(key), entry, other);
        ListOfOther(m.ix, key, Updated(m.ix.ListOf(key), entry, other), false, k);
      case PurgeSlots(key, slots) =>
        WithoutSlotsKeepsRest(m.ix.ListOf(key), slots);
        ListOfOther(m.ix, key, WithoutSlots(m.ix.ListOf(key), slots), key in m.ix.lists, k);
      case _ =>
        assert m'.ix.ListOf(k) == m.ix.ListOf(k);
    }
  }

  lemma StepKeepsRoots(m: Machine, step: Step)
    requires RootsValid(m.ix) && Possible(m, step) && Disciplined(m, step)
    ensures RootsValid(Next(m, step).ix) && m.ix.maxRoot <= Next(m, step).ix.maxRoot
  {
  }

  lemma StepKeepsCleans(m: Machine, step: Step)
    requires Inv(m) && Possible(m, step) && Disciplined(m, step)
    ensures CleansValid(Next(m, step))
  {
    var m' := Next(m, step);
    StepKeepsRoots(m, step);
    forall id | id in m'.cleans
      ensures m'.cleans[id].Some? && m'.cleans[id].value <= m'.ix.maxRoot
      ensures forall s :: s in m'.scans ==> m'.cleans[id].value <= m'.scans[s].maxRoot
    {
      if step.BeginClean? && id == step.clean {
        forall s | s in m.scans
          ensures m'.cleans[id].value <= m.scans[s].maxRoot
        {
          ScanIsRegistered(m, s);
        }
      } else {
        assert id in m.cleans && m'.cleans[id] == m.cleans[id];
      }
    }
  }

  lemma SparedScansStayValid(m: Machine, step: Step)
    requires RootsValid(m.ix) && ScansValid(m) && Possible(m, step) && Disciplined(m, step) && Spares(m, step)
    ensures ScansValid(Next(m, step))
  {
    var m' := Next(m, step);
    StepKeepsRoots(m, step);
    forall id | id in m'.scans
      ensures m'.scans[id].maxRoot <= m'.ix.maxRoot
      ensures m'.scans[id].bank in m'.ix.removedBanks || ScanValid(m', m'.scans[id])
    {
      if step.BeginScan? && id == step.scan {
        if m'.scans[id].bank !in m'.ix.removedBanks {
          SameListsUndisturbed(m'.scans[id], m.ix, m'.ix);
          UndisturbedStaysValid(m, m', m'.scans[id]);
        }
      } else {
        assert id in m.scans && m'.scans[id] == m.scans[id];
        if m'.scans[id].bank !in m'.ix.removedBanks {
          SparedScanStaysValid(m, step, id);
        }
      }
    }
  }

  /** The invariant is kept by every step of every thread. */
  lemma StepKeepsInv(m: Machine, step: Step)
    requires Inv(m) && Possible(m, step) && Disciplined(m, step)
    ensures Inv(Next(m, step))
  {
    StepKeepsRoots(m, step);
    StepKeepsLists(m, step);
    StepKeepsCounted(m, step);
    StepKeepsCleans(m, step);
    StepSpares(m, step);
    SparedScansStayValid(m, step);
  }

  /** A clean works from its beginning to its end with one bound, and not any longer. */
  lemma CleanIsUnderWay(m: Machine, step: Step, id: CleanId, key: Pubkey)
    requires Possible(m, step)
    ensures Possible(Next(m, step), CleanKey(id, key)) <==>
              step != EndClean(id) && (Possible(m, CleanKey(id, key)) || (step.BeginClean? && step.clean == id))
    ensures id in m.cleans && step != EndClean(id) ==> Next(m, step).cleans[id] == m.cleans[id]
  {
  }

  /** A scan of a fork that does not have the newest root goes by the roots alone; others see their fork too. */
  lemma ScanSeesExactly(m: Machine, id: ScanId, ancestors: set<Slot>, slot: Slot)
    requires RootsValid(m.ix) && Possible(m, BeginScan(id, ancestors))
    ensures var m' := Next(m, BeginScan(id, ancestors));
            ScanView(m'.scans[id], m'.ix).Sees(slot) <==> slot in m.ix.roots || (m.ix.maxRoot in ancestors && slot in ancestors)
  {
  }

  // ---------------------------------------------------------------- whole runs

  /** Every step of the run is possible and disciplined. */
  ghost predicate Run(m: Machine, steps: seq<Step>)
    decreases |steps|
  {
    steps == [] || (Possible(m, steps[0]) && Disciplined(m, steps[0]) && Run(Next(m, steps[0]), steps[1..]))
  }

  ghost function After(m: Machine, steps: seq<Step>): Machine
    requires Run(m, steps)
    decreases |steps|
  {
    if steps == [] then m else After(Next(m, steps[0]), steps[1..])
  }

  lemma {:induction false} RunKeepsInv(m: Machine, steps: seq<Step>)
    requires Inv(m) && Run(m, steps)
    ensures Inv(After(m, steps))
    decreases |steps|
  {
    if steps != [] {
      StepKeepsInv(m, steps[0]);
      RunKeepsInv(Next(m, steps[0]), steps[1..]);
    }
  }

  lemma {:induction false} RunSplit(m: Machine, steps: seq<Step>, i: nat)
    requires Run(m, steps) && i <= |steps|
    ensures Run(m, steps[..i]) && Run(After(m, steps[..i]), steps[i..])
    ensures After(After(m, steps[..i]), steps[i..]) == After(m, steps)
    decreases i
  {
    if i == 0 {
      assert steps[i..] == steps;
    } else {
      RunSplit(Next(m, steps[0]), steps[1..], i - 1);
      assert steps[..i][1..] == steps[1..][..i - 1] && steps[i..] == steps[1..][i - 1..];
    }
  }

  /** A validator at rest: at least one root, nothing under way. */
  ghost predicate AtRest(m: Machine) {
    && RootsValid(m.ix) && ListsValid(m.ix)
    && m.admitted == map[] && m.scans == map[] && m.ended == map[] && m.cleans == map[] && m.ix.scanRoots == map[]
  }

  /**
   Scan isolation. After any run from a state at rest, every scan under way that would end well
   resolves every key to the entry it would have found when it began, the registrations count the
   scans per root, and no clean under way can touch what a scan needs.
   */
  lemma ScanIsolation(m: Machine, steps: seq<Step>)
    requires AtRest(m) && Run(m, steps)
    ensures var m' := After(m, steps);
            && (forall id :: id in m'.scans && EndOfScan(m'.scans[id], m'.ix).Ok? ==> Isolated(m'.scans[id], m'.ix))
            && Counted(m') && CleansValid(m')
  {
    forall root: Slot
      ensures CountAt(m.scans, root) == 0
    {
      assert IdsAt(m.scans, root) == {};
    }
    RunKeepsInv(m, steps);
    var m' := After(m, steps);
    forall id | id in m'.scans && EndOfScan(m'.scans[id], m'.ix).Ok?
      ensures Isolated(m'.scans[id], m'.ix)
    {
      assert ScanValid(m', m'.scans[id]);
    }
  }

  /** The scan is registered, or it is not any more and has only its bank to look at. */
  ghost predicate Underway(m: Machine, id: ScanId, scan: Scan) {
    (id in m.scans && m.scans[id] == scan) || (id in m.ended && m.ended[id] == scan)
  }

  /** A scan that finishes well was not disturbed at any time while it was registered, so all its reads agree. */
  lemma {:induction false} OkScanWasNeverDisturbed(m: Machine, steps: seq<Step>, id: ScanId, scan: Scan)
    requires Inv(m) && Run(m, steps) && Underway(m, id, scan)
    requires forall i :: 0 <= i < |steps| ==> steps[i] != FinishScan(id)
    ensures Underway(After(m, steps), id, scan)
    ensures EndOfScan(scan, After(m, steps).ix).Ok? ==> EndOfScan(scan, m.ix).Ok?
    ensures EndOfScan(scan, After(m, steps).ix).Ok? && id in m.scans && m.scans[id] == scan ==> Isolated(scan, m.ix)
    decreases |steps|
  {
    if steps != [] {
      var m' := Next(m, steps[0]);
      StepKeepsInv(m, steps[0]);
      assert steps[0] != FinishScan(id);
      assert Underway(m', id, scan);
      OkScanWasNeverDisturbed(m', steps[1..], id, scan);
      if scan.bank in m.ix.removedBanks {
        RemovedStaysRemoved(m, steps[0], id, scan.bank);
      }
    }
    if scan.bank !in m.ix.removedBanks && id in m.scans && m.scans[id] == scan {
      assert ScanValid(m, m.scans[id]);
    }
  }

  /** Whether a bank is marked as removed after the steps: the last removal or drop of it decides. */
  ghost predicate Marked(steps: seq<Step>, bank: BankId, before: bool) {
    if steps == [] then before
    else
      var last := steps[|steps| - 1];
      || (last.RemoveBanks? && bank in last.banks)
      || (last != DropBank(bank) && Marked(steps[..|steps| - 1], bank, before))
  }

  lemma {:induction false} MarkedCons(steps: seq<Step>, bank: BankId, before: bool)
    requires steps != []
    ensures Marked(steps, bank, before) == Marked(steps[1..], bank, Marked([steps[0]], bank, before))
    decreases |steps|
  {
    if |steps| == 1 {
      assert steps == [steps[0]];
    } else {
      var init := steps[..|steps| - 1];
      MarkedCons(init, bank, before);
      assert steps[1..][..|steps| - 2] == init[1..] && init[0] == steps[0];
    }
  }

  /** The removed banks are exactly those that the run has marked. */
  lemma {:induction false} RemovedExactly(m: Machine, steps: seq<Step>, bank: BankId)
    requires Run(m, steps)
    ensures bank in After(m, steps).ix.removedBanks <==> Marked(steps, bank, bank in m.ix.removedBanks)
    decreases |steps|
  {
    if steps != [] {
      StepMarks(m, steps[0], bank);
      RemovedExactly(Next(m, steps[0]), steps[1..], bank);
      MarkedCons(steps, bank, bank in m.ix.removedBanks);
    }
  }

  lemma StepMarks(m: Machine, step: Step, bank: BankId)
    requires Possible(m, step)
    ensures bank in Next(m, step).ix.removedBanks <==> Marked([step], bank, bank in m.ix.removedBanks)
  {
    assert [step][..0] == [];
  }

  /** No scan of a bank is admitted from its removal until the bank is dropped, and it can be after that. */
  lemma AdmittedExactly(m: Machine, steps: seq<Step>, id: ScanId, bank: BankId)
    requires Run(m, steps)
    requires var m' := After(m, steps); id !in m'.admitted && id !in m'.scans && id !in m'.ended
    ensures Possible(After(m, steps), AdmitScan(id, bank)) <==> !Marked(steps, bank, bank in m.ix.removedBanks)
  {
    RemovedExactly(m, steps, bank);
  }

  /** A scan finishes well exactly if its bank is not marked then. */
  lemma FinishesWellExactly(m: Machine, steps: seq<Step>, id: ScanId)
    requires Run(m, steps) && id in After(m, steps).ended
    ensures var m' := After(m, steps);
            var bank := m'.ended[id].bank;
            EndOfScan(m'.ended[id], m'.ix) ==
              if Marked(steps, bank, bank in m.ix.removedBanks) then SlotRemoved(bank) else Ok
  {
    RemovedExactly(m, steps, After(m, steps).ended[id].bank);
  }

  /** A scan is in one phase at a time. */
  ghost predicate OnePhase(m: Machine) {
    m.admitted.Keys !! m.scans.Keys && m.admitted.Keys !! m.ended.Keys && m.scans.Keys !! m.ended.Keys
  }

  lemma {:induction false} RunKeepsPhases(m: Machine, steps: seq<Step>)
    requires OnePhase(m) && Run(m, steps)
    ensures OnePhase(After(m, steps))
    decreases |steps|
  {
    if steps != [] {
      StepKeepsPhases(m, steps[0]);
      RunKeepsPhases(Next(m, steps[0]), steps[1..]);
    }
  }

  lemma StepKeepsPhases(m: Machine, step: Step)
    requires OnePhase(m) && Possible(m, step)
    ensures OnePhase(Next(m, step))
  {
  }

  /** A scan holds its bank from the step that admits it to the step that finishes it. */
  lemma HoldsExactly(m: Machine, step: Step, id: ScanId, bank: BankId)
    requires OnePhase(m) && Possible(m, step)
    ensures Holds(Next(m, step), id, bank) <==> step == AdmitScan(id, bank) || (Holds(m, id, bank) && step != FinishScan(id))
  {
  }

  /** A scan that has finished holds no bank, and its id can be used again. */
  lemma FinishedScanLetsGo(m: Machine, id: ScanId, bank: BankId)
    requires OnePhase(m) && Possible(m, FinishScan(id))
    ensures var m' := Next(m, FinishScan(id));
            && !Holds(m', id, bank) && (bank !in m.ix.removedBanks ==> Possible(m', AdmitScan(id, bank)))
            && forall other: ScanId, b: BankId :: other != id ==> (Holds(m', other, b) <==> Holds(m, other, b))
  {
  }

  /** The bank of a scan is held until the scan finishes, and it stays marked until then. */
  lemma {:induction false} MarkedStays(m: Machine, steps: seq<Step>, id: ScanId, bank: BankId)
    requires Run(m, steps) && Holds(m, id, bank) && bank in m.ix.removedBanks
    requires forall i :: 0 <= i < |steps| ==> steps[i] != FinishScan(id)
    ensures Holds(After(m, steps), id, bank) && bank in After(m, steps).ix.removedBanks
    decreases |steps|
  {
    if steps != [] {
      assert steps[0] != FinishScan(id);
      RemovedStaysRemoved(m, steps[0], id, bank);
      assert Holds(Next(m, steps[0]), id, bank);
      MarkedStays(Next(m, steps[0]), steps[1..], id, bank);
    }
  }

  /**
   A scan whose bank is removed by step `j`, be it after the scan was admitted, while it is registered or
   after it is unregistered, does not finish well.
   */
  lemma RemovedBankIsNoticed(m: Machine, steps: seq<Step>, j: nat, id: ScanId, bank: BankId)
    requires OnePhase(m) && Run(m, steps) && j < |steps| && Run(m, steps[..j])
    requires steps[j].RemoveBanks? && bank in steps[j].banks && Holds(After(m, steps[..j]), id, bank)
    requires forall i :: j < i < |steps| ==> steps[i] != FinishScan(id)
    ensures var m' := After(m, steps);
            && Holds(m', id, bank) && !(exists other :: Possible(m', AdmitScan(other, bank)))
            && (id in m'.ended ==> EndOfScan(m'.ended[id], m'.ix) == SlotRemoved(bank))
  {
    RunSplit(m, steps, j);
    RunKeepsPhases(m, steps);
    var mid, rest := After(m, steps[..j]), steps[j..];
    assert rest[0] == steps[j] && forall i :: 0 <= i < |rest| - 1 ==> rest[1..][i] == steps[j + 1 + i];
    StepMarks(mid, rest[0], bank);
    MarkedStays(Next(mid, rest[0]), rest[1..], id, bank);
  }
}
