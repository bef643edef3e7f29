/**
 What the callers of the index have to ensure for scans is needed. How far a clean may go is settled
 exactly, for runs in which writes go only to slots that are not rooted, as the banks' writes do; and the
 newest root has to be alive.
 */
module ScanLimits {
  import opened Wrappers
  import opened Pubkeys
  import opened AccountInfos
  import opened SlotLists
  import opened AccountsIndexes
  import opened Scans

  /** A scan that would end well has been disturbed. */
  ghost predicate Broken(m: Machine) {
    exists id :: id in m.scans && EndOfScan(m.scans[id], m.ix).Ok? && !Isolated(m.scans[id], m.ix)
  }

  /** Rooted slots are not written to any more, whether somebody reads them or not. */
  ghost predicate Careful(m: Machine, step: Step) {
    && Disciplined(m, step)
    && (step.Upsert? ==> step.entry.slot !in m.ix.roots && (step.other.Some? ==> step.other.value !in m.ix.roots))
  }

  /** Every step of the run is possible and careful. */
  ghost predicate CarefulRun(m: Machine, steps: seq<Step>)
    decreases |steps|
  {
    steps == [] || (Possible(m, steps[0]) && Careful(m, steps[0]) && CarefulRun(Next(m, steps[0]), steps[1..]))
  }

  ghost function AfterCareful(m: Machine, steps: seq<Step>): Machine
    requires CarefulRun(m, steps)
    decreases |steps|
  {
    if steps == [] then m else AfterCareful(Next(m, steps[0]), steps[1..])
  }

  /** A careful run leads to a state where a scan has been disturbed. */
  ghost predicate BreaksBy(m: Machine, steps: seq<Step>) {
    CarefulRun(m, steps) && Broken(AfterCareful(m, steps))
  }

  ghost predicate Breakable(m: Machine) {
    exists steps :: BreaksBy(m, steps)
  }

  lemma BrokenIsBreakable(m: Machine)
    requires Broken(m)
    ensures Breakable(m)
  {
    assert BreaksBy(m, []);
  }

  lemma StepToBreakable(m: Machine, step: Step)
    requires Possible(m, step) && Careful(m, step) && Breakable(Next(m, step))
    ensures Breakable(m)
  {
    var rest :| BreaksBy(Next(m, step), rest);
    var steps := [step] + rest;
    assert steps[0] == step && steps[1..] == rest;
    assert BreaksBy(m, steps);
  }

  /** Nothing breaks from a state of the invariant. */
  lemma ValidIsUnbreakable(m: Machine)
    requires Inv(m)
    ensures !Breakable(m)
  {
    forall steps | CarefulRun(m, steps)
      ensures !Broken(AfterCareful(m, steps))
    {
      CarefulRunKeepsInv(m, steps);
    }
  }

  lemma {:induction false} CarefulRunKeepsInv(m: Machine, steps: seq<Step>)
    requires Inv(m) && CarefulRun(m, steps)
    ensures Inv(AfterCareful(m, steps))
    decreases |steps|
  {
    if steps != [] {
      StepKeepsInv(m, steps[0]);
      CarefulRunKeepsInv(Next(m, steps[0]), steps[1..]);
    }
  }

  // ---------------------------------------------------------------- cleans that go too far

  lemma RegisteredAtAnOldRoot(m: Machine, root: Slot)
    requires Counted(m) && ScansValid(m) && root in m.ix.scanRoots
    ensures root <= m.ix.maxRoot
  {
    assert m.ix.ScansAt(root) == CountAt(m.scans, root);
    assert IdsAt(m.scans, root) != {};
    var id :| id in IdsAt(m.scans, root);
  }

  /** A bound that is missing or beyond the newest root is not held back by any scan. */
  lemma UndisciplinedMeansNoScans(m: Machine, step: Step)
    requires Inv(m) && step.BeginClean? && Possible(m, step) && !Disciplined(m, step)
    ensures m.scans == map[] && MaxCleanRoot(step.minScanRoot, step.proposed) == step.proposed
    ensures step.proposed.None? || step.proposed.value > m.ix.maxRoot
  {
    forall root | root in m.ix.scanRoots
      ensures root <= m.ix.maxRoot
    {
      RegisteredAtAnOldRoot(m, root);
    }
    assert step.minScanRoot.None?;
    forall id | id in m.scans
      ensures false
    {
      ScanIsRegistered(m, id);
    }
  }

  const STORED := Info(AppendVec(0, 0), false)

  /** The scan resolved the key to this entry, it is still there, and the clean has not come to the key yet. */
  ghost predicate AboutToBreak(m: Machine, clean: CleanId, key: Pubkey, id: ScanId, entry: SlotEntry) {
    && RootsValid(m.ix) && ListsValid(m.ix) && clean in m.cleans && m.scans.Keys == {id}
    && m.scans[id].bank !in m.ix.removedBanks && !entry.info.IsCached()
    && entry in m.ix.ListOf(key) && Look(m.scans[id], m.scans[id].begun, key) == Some(entry)
  }

  /** A newer root of the list outdates the entry, and cleaning up to it takes the entry away. */
  lemma OutdatedIsPurged(list: SlotList, roots: set<Slot>, entry: SlotEntry, newer: SlotEntry, bound: Option<Slot>)
    requires newer in list && entry.slot < newer.slot && newer.slot in roots && !entry.info.IsCached()
    requires WithinBound(newer.slot, bound)
    ensures entry !in Kept(list, newer.slot, NewestRoot(roots, list, bound))
  {
    NewestRootIsNewest(roots, list, bound);
    PurgeMembers(list, newer.slot, NewestRoot(roots, list, bound));
  }

  lemma ResolvedIsThere(v: View, list: SlotList, entry: SlotEntry)
    requires Resolve(v, list) == Some(entry)
    ensures entry in list && v.Sees(entry.slot)
  {
    ResolveIsNewest(v, list);
    LastAtIsThere(list, entry.slot);
  }

  /** The last step: cleaning up to a newer root that has the key. */
  lemma CleanBreaks(m: Machine, clean: CleanId, key: Pubkey, id: ScanId, entry: SlotEntry)
    requires AboutToBreak(m, clean, key, id, entry) && entry.slot < m.ix.maxRoot
    requires SlotEntry(m.ix.maxRoot, STORED) in m.ix.ListOf(key)
    requires m.cleans[clean].None? || m.cleans[clean].value == m.ix.maxRoot
    ensures Breakable(m)
  {
    var scan, bound, list := m.scans[id], m.cleans[clean], m.ix.ListOf(key);
    var m' := Next(m, CleanKey(clean, key));
    var kept := Kept(list, m.ix.maxRoot, NewestRoot(m.ix.roots, list, bound));
    OutdatedIsPurged(list, m.ix.roots, entry, SlotEntry(m.ix.maxRoot, STORED), bound);
    ListOfOther(m.ix, key, kept, false, key);
    if Look(scan, m'.ix, key) == Some(entry) {
      ResolvedIsThere(ScanView(scan, m'.ix), kept, entry);
    }
    assert !Isolated(m'.scans[id], m'.ix);
    BrokenIsBreakable(m');
    StepToBreakable(m, CleanKey(clean, key));
  }

  /** The step before: that root. */
  lemma NewRootBreaks(m: Machine, clean: CleanId, key: Pubkey, id: ScanId, entry: SlotEntry, root: Slot)
    requires AboutToBreak(m, clean, key, id, entry) && entry.slot < root && m.ix.maxRoot < root
    requires SlotEntry(root, STORED) in m.ix.ListOf(key)
    requires m.cleans[clean].None? || m.cleans[clean].value == root
    ensures Breakable(m)
  {
    StepKeepsLists(m, AddRoot(root));
    var m' := Next(m, AddRoot(root));
    assert m'.ix.ListOf(key) == m.ix.ListOf(key);
    CleanBreaks(m', clean, key, id, entry);
    StepToBreakable(m, AddRoot(root));
  }

  lemma WriteHas(m: Machine, key: Pubkey, entry: SlotEntry)
    requires ListsValid(m.ix)
    ensures var list := Next(m, Upsert(key, entry, None)).ix.ListOf(key);
            && entry in list && forall e :: e in m.ix.ListOf(key) && e.slot != entry.slot ==> e in list
  {
    assert DistinctSlots(m.ix.ListOf(key));
    UpdatedSlots(m.ix.ListOf(key), entry, None);
    ListOfOther(m.ix, key, Updated(m.ix.ListOf(key), entry, None), false, key);
  }

  /** The step before that: the write that the newer root brings. */
  lemma NewWriteBreaks(m: Machine, clean: CleanId, key: Pubkey, id: ScanId, entry: SlotEntry, root: Slot)
    requires AboutToBreak(m, clean, key, id, entry) && entry.slot < root && m.ix.maxRoot < root
    requires !ScanView(m.scans[id], m.ix).Sees(root)
    requires m.cleans[clean].None? || m.cleans[clean].value == root
    ensures Breakable(m)
  {
    var write := Upsert(key, SlotEntry(root, STORED), None);
    assert root !in m.ix.roots;
    assert Possible(m, write) && Careful(m, write);
    var m' := Next(m, write);
    StepKeepsLists(m, write);
    WriteHas(m, key, SlotEntry(root, STORED));
    NewRootBreaks(m', clean, key, id, entry, root);
    StepToBreakable(m, write);
  }

  // ---------------------------------------------------------------- one beyond the newest root

  /** What a reader of the roots alone finds. */
  ghost function RootedUpTo(ix: Index, root: Slot, key: Pubkey): Option<SlotEntry> {
    Resolve(View(ix.roots, {}, root), ix.ListOf(key))
  }

  /** No key has a stored entry to lose: what the roots have of it is cached, or nothing. */
  ghost predicate NothingStored(ix: Index, root: Slot) {
    forall key: Pubkey :: RootedUpTo(ix, root, key).Some? ==> RootedUpTo(ix, root, key).value.info.IsCached()
  }

  /** With a stored entry of some key, a clean one beyond the newest root can break a scan. */
  lemma StoredEntryBreaks(m: Machine, clean: CleanId, key: Pubkey, id: ScanId, root: Slot)
    requires RootsValid(m.ix) && ListsValid(m.ix) && m.scans == map[] && clean in m.cleans && Possible(m, BeginScan(id, {}))
    requires m.admitted[id] !in m.ix.removedBanks
    requires m.cleans[clean].None? || m.cleans[clean].value == root
    requires m.ix.maxRoot < root && RootedUpTo(m.ix, m.ix.maxRoot, key).Some?
    requires !RootedUpTo(m.ix, m.ix.maxRoot, key).value.info.IsCached()
    ensures Breakable(m)
  {
    var begin, entry := BeginScan(id, {}), RootedUpTo(m.ix, m.ix.maxRoot, key).value;
    var m' := Next(m, begin);
    ResolvedIsThere(View(m.ix.roots, {}, m.ix.maxRoot), m.ix.ListOf(key), entry);
    StepKeepsLists(m, begin);
    assert m'.ix.ListOf(key) == m.ix.ListOf(key);
    NewWriteBreaks(m', clean, key, id, entry, root);
    StepToBreakable(m, begin);
  }

  /** A slot that is not rooted yet, but of the scan's fork, resolves to its entry. */
  lemma ForkEntryIsSeen(m: Machine, key: Pubkey, id: ScanId, fork: Slot)
    requires RootsValid(m.ix) && ListsValid(m.ix) && fork == m.ix.maxRoot + 1
    requires SlotEntry(fork, STORED) in m.ix.ListOf(key) && Possible(m, BeginScan(id, {m.ix.maxRoot, fork}))
    ensures var scan := Next(m, BeginScan(id, {m.ix.maxRoot, fork})).scans[id];
            Look(scan, scan.begun, key) == Some(SlotEntry(fork, STORED))
  {
    var scan := Next(m, BeginScan(id, {m.ix.maxRoot, fork})).scans[id];
    var v, list := ScanView(scan, m.ix), m.ix.ListOf(key);
    assert NewestSeen(v, list, fork);
    ResolveAt(v, list, fork);
    assert DistinctSlots(list);
    LastAtOnly(list, SlotEntry(fork, STORED));
  }

  /** The fork of the scan is rooted. */
  lemma ForkRootBreaks(m: Machine, clean: CleanId, key: Pubkey, id: ScanId, fork: Slot, root: Slot)
    requires AboutToBreak(m, clean, key, id, SlotEntry(fork, STORED)) && m.ix.maxRoot < fork < root
    requires root !in m.scans[id].ancestors
    requires m.cleans[clean].None? || m.cleans[clean].value == root
    ensures Breakable(m)
  {
    var m' := Next(m, AddRoot(fork));
    StepKeepsLists(m, AddRoot(fork));
    assert m'.ix.ListOf(key) == m.ix.ListOf(key);
    NewWriteBreaks(m', clean, key, id, SlotEntry(fork, STORED), root);
    StepToBreakable(m, AddRoot(fork));
  }

  /** A scan of a fork that is about to be rooted. */
  lemma ForkScanBreaks(m: Machine, clean: CleanId, key: Pubkey, id: ScanId, fork: Slot, root: Slot)
    requires RootsValid(m.ix) && ListsValid(m.ix) && m.scans == map[] && clean in m.cleans
    requires id in m.admitted && m.admitted[id] !in m.ix.removedBanks
    requires m.cleans[clean].None? || m.cleans[clean].value == root
    requires m.ix.maxRoot + 1 == fork < root && SlotEntry(fork, STORED) in m.ix.ListOf(key)
    ensures Breakable(m)
  {
    var begin := BeginScan(id, {m.ix.maxRoot, fork});
    var m' := Next(m, begin);
    ForkEntryIsSeen(m, key, id, fork);
    StepKeepsLists(m, begin);
    assert m'.ix.ListOf(key) == m.ix.ListOf(key);
    ForkRootBreaks(m', clean, key, id, fork, root);
    StepToBreakable(m, begin);
  }

  /** Two beyond the newest root, no key needs to have an entry: the fork brings it. */
  lemma ForkBreaks(m: Machine, clean: CleanId, key: Pubkey, id: ScanId, fork: Slot, root: Slot)
    requires RootsValid(m.ix) && ListsValid(m.ix) && m.scans == map[] && clean in m.cleans
    requires id in m.admitted && m.admitted[id] !in m.ix.removedBanks
    requires m.cleans[clean].None? || m.cleans[clean].value == root
    requires m.ix.maxRoot + 1 == fork < root
    ensures Breakable(m)
  {
    var write := Upsert(key, SlotEntry(fork, STORED), None);
    assert fork !in m.ix.roots;
    StepKeepsLists(m, write);
    WriteHas(m, key, SlotEntry(fork, STORED));
    ForkScanBreaks(Next(m, write), clean, key, id, fork, root);
    StepToBreakable(m, write);
  }

  // ---------------------------------------------------------------- one beyond, with nothing to lose

  /** Cleaning does not take cached entries away. */
  lemma CachedIsKept(v: View, list: SlotList, clean: Slot, newest: Slot)
    requires DistinctSlots(list) && (Resolve(v, list).Some? ==> Resolve(v, list).value.info.IsCached())
    ensures Resolve(v, Kept(list, clean, newest)) == Resolve(v, list)
  {
    var kept := Kept(list, clean, newest);
    PurgeMembers(list, clean, newest);
    PurgeKeepsDistinct(list, clean, newest);
    ResolveIsNewest(v, list);
    if Resolve(v, list).Some? {
      var entry := Resolve(v, list).value;
      ResolvedIsThere(v, list, entry);
      assert NewestSeen(v, kept, entry.slot);
      ResolveAt(v, kept, entry.slot);
      LastAtOnly(kept, entry);
    } else {
      ResolveIsNewest(v, kept);
    }
  }

  /** A slot that is not cleaned resolves as before. */
  lemma UncleanedIsKept(v: View, list: SlotList, clean: Slot, newest: Slot)
    requires Resolve(v, list).Some? && Resolve(v, list).value.slot >= clean
    ensures Resolve(v, Kept(list, clean, newest)) == Resolve(v, list)
  {
    var kept, slot := Kept(list, clean, newest), Resolve(v, list).value.slot;
    ResolveIsNewest(v, list);
    ResolvedIsThere(v, list, Resolve(v, list).value);
    PurgeMembers(list, clean, newest);
    PurgeKeepsLastAt(list, clean, newest, slot);
    assert Resolve(v, list).value in kept;
    assert NewestSeen(v, kept, slot);
    ResolveAt(v, kept, slot);
  }

  /** What a scan finds at or below its root is what the roots have. */
  lemma LowEntryIsRootedUpTo(m: Machine, scan: Scan, key: Pubkey)
    requires ScanValid(m, scan) && Look(scan, m.ix, key).Some? && Look(scan, m.ix, key).value.slot <= scan.maxRoot
    ensures RootedUpTo(m.ix, scan.maxRoot, key) == Look(scan, m.ix, key)
  {
    var v, list, entry := ScanView(scan, m.ix), m.ix.ListOf(key), Look(scan, m.ix, key).value;
    ResolveIsNewest(v, list);
    ResolvedIsThere(v, list, entry);
    assert entry.slot in m.ix.roots by {
      if entry.slot in scan.ancestors {
        assert RootedOrUnused(m.ix, entry.slot);
      }
    }
    assert NewestSeen(View(m.ix.roots, {}, scan.maxRoot), list, entry.slot);
    ResolveAt(View(m.ix.roots, {}, scan.maxRoot), list, entry.slot);
    ResolveAt(v, list, entry.slot);
  }

  lemma NearCleanUndisturbed(m: Machine, scan: Scan, key: Pubkey, bound: Slot)
    requires ListsValid(m.ix) && ScanValid(m, scan) && bound == scan.maxRoot + 1 && NothingStored(m.ix, scan.maxRoot)
    ensures Undisturbed(scan, m.ix, m.ix.CleanKey(key, Some(bound)))
  {
    var v, list := ScanView(scan, m.ix), m.ix.ListOf(key);
    var newest := NewestRoot(m.ix.roots, list, Some(bound));
    assert DistinctSlots(list);
    if Look(scan, m.ix, key).Some? && Look(scan, m.ix, key).value.slot > scan.maxRoot {
      UncleanedIsKept(v, list, bound, newest);
    } else {
      if Look(scan, m.ix, key).Some? {
        LowEntryIsRootedUpTo(m, scan, key);
      }
      CachedIsKept(v, list, bound, newest);
    }
    PurgeMembers(list, bound, newest);
    OneListUndisturbed(scan, m.ix, key, Kept(list, bound, newest), false);
  }

  /** A clean under way keeps within what every scan needs, or goes one beyond the root with nothing stored. */
  ghost predicate CleanIsNear(m: Machine, root: Slot, bound: Option<Slot>) {
    && bound.Some? && (bound.value <= m.ix.maxRoot || bound.value == root + 1)
    && forall s :: s in m.scans ==>
         bound.value <= m.scans[s].maxRoot || (bound.value == root + 1 && m.scans[s].maxRoot == root)
  }

  /** The invariant with a clean one beyond that root. */
  ghost predicate Near(m: Machine, root: Slot) {
    && RootsValid(m.ix) && ListsValid(m.ix) && Counted(m) && ScansValid(m)
    && root <= m.ix.maxRoot && NothingStored(m.ix, root)
    && forall id :: id in m.cleans ==> CleanIsNear(m, root, m.cleans[id])
  }

  /** Once nothing is stored up to a root, careful steps leave it so. */
  lemma StepKeepsNothingStored(m: Machine, step: Step, root: Slot)
    requires RootsValid(m.ix) && ListsValid(m.ix) && root <= m.ix.maxRoot && NothingStored(m.ix, root)
    requires Possible(m, step) && Careful(m, step)
    ensures NothingStored(Next(m, step).ix, root)
  {
    var m', reader := Next(m, step), Scan(root, {}, 0, m.ix);
    forall key: Pubkey
      ensures RootedUpTo(m'.ix, root, key) == RootedUpTo(m.ix, root, key)
    {
      if step.CleanKey? {
        var list, bound := m.ix.ListOf(step.key), m.cleans[step.clean];
        var clean, newest := CleanRoot(bound, m.ix.maxRoot), NewestRoot(m.ix.roots, list, bound);
        assert DistinctSlots(list) && RootedUpTo(m.ix, root, step.key) == Resolve(View(m.ix.roots, {}, root), list);
        CachedIsKept(View(m.ix.roots, {}, root), list, clean, newest);
        ListOfOther(m.ix, step.key, Kept(list, clean, newest), false, key);
      } else {
        StepUndisturbed(m, step, reader);
        assert Look(reader, m'.ix, key) == Look(reader, m.ix, key);
      }
    }
    assert forall key: Pubkey :: RootedUpTo(m'.ix, root, key) == RootedUpTo(m.ix, root, key);
  }

  lemma NearCleanSparesScans(m: Machine, step: Step, root: Slot)
    requires Near(m, root) && Possible(m, step) && step.CleanKey?
    ensures Spares(m, step)
  {
    forall id | id in m.scans && m.scans[id].bank !in m.ix.removedBanks
      ensures Undisturbed(m.scans[id], m.ix, Next(m, step).ix)
    {
      assert ScanValid(m, m.scans[id]);
      assert CleanIsNear(m, root, m.cleans[step.clean]);
      var bound := m.cleans[step.clean].value;
      if bound <= m.scans[id].maxRoot {
        CleanKeyUndisturbed(m, m.scans[id], step.key, bound);
      } else {
        NearCleanUndisturbed(m, m.scans[id], step.key, bound);
      }
    }
  }

  lemma StepKeepsCleansNear(m: Machine, step: Step, root: Slot, id: CleanId)
    requires Near(m, root) && Possible(m, step) && Disciplined(m, step) && id in Next(m, step).cleans
    ensures CleanIsNear(Next(m, step), root, Next(m, step).cleans[id])
  {
    StepKeepsRoots(m, step);
    if step.BeginClean? && id == step.clean {
      forall s | s in m.scans
        ensures Next(m, step).cleans[id].value <= m.scans[s].maxRoot
      {
        ScanIsRegistered(m, s);
      }
    } else {
      assert id in m.cleans && CleanIsNear(m, root, m.cleans[id]);
    }
  }

  lemma StepKeepsNear(m: Machine, step: Step, root: Slot)
    requires Near(m, root) && Possible(m, step) && Careful(m, step)
    ensures Near(Next(m, step), root)
  {
    if step.CleanKey? {
      NearCleanSparesScans(m, step, root);
    } else {
      StepSparesScans(m, step);
    }
    StepKeepsRoots(m, step);
    StepKeepsLists(m, step);
    StepKeepsCounted(m, step);
    SparedScansStayValid(m, step);
    StepKeepsNothingStored(m, step, root);
    forall id | id in Next(m, step).cleans
      ensures CleanIsNear(Next(m, step), root, Next(m, step).cleans[id])
    {
      StepKeepsCleansNear(m, step, root, id);
    }
  }

  lemma {:induction false} CarefulRunKeepsNear(m: Machine, steps: seq<Step>, root: Slot)
    requires Near(m, root) && CarefulRun(m, steps)
    ensures Near(AfterCareful(m, steps), root)
    decreases |steps|
  {
    if steps != [] {
      StepKeepsNear(m, steps[0], root);
      CarefulRunKeepsNear(Next(m, steps[0]), steps[1..], root);
    }
  }

  lemma NearIsUnbreakable(m: Machine, root: Slot)
    requires Near(m, root)
    ensures !Breakable(m)
  {
    forall steps | CarefulRun(m, steps)
      ensures !Broken(AfterCareful(m, steps))
    {
      CarefulRunKeepsNear(m, steps, root);
    }
  }

  // ---------------------------------------------------------------- the exact bound

  /** How far a clean may go: to the newest root, and one slot on while nothing is stored. */
  ghost predicate SafeBound(ix: Index, bound: Option<Slot>) {
    bound.Some? && (bound.value <= ix.maxRoot || (bound.value == ix.maxRoot + 1 && NothingStored(ix, ix.maxRoot)))
  }

  lemma SafeCleanIsUnbreakable(m: Machine, step: Step)
    requires Inv(m) && step.BeginClean? && Possible(m, step)
    requires SafeBound(m.ix, MaxCleanRoot(step.minScanRoot, step.proposed))
    ensures !Breakable(Next(m, step))
  {
    if Disciplined(m, step) {
      StepKeepsInv(m, step);
      ValidIsUnbreakable(Next(m, step));
    } else {
      var m' := Next(m, step);
      UndisciplinedMeansNoScans(m, step);
      StepKeepsCounted(m, step);
      forall id | id in m'.cleans
        ensures CleanIsNear(m', m.ix.maxRoot, m'.cleans[id])
      {
      }
      assert ListsValid(m'.ix) && ScansValid(m');
      NearIsUnbreakable(m', m.ix.maxRoot);
    }
  }

  lemma {:induction false} Fresh(used: set<nat>) returns (unused: nat)
    ensures forall n :: n in used ==> n < unused
    decreases |used|
  {
    if used == {} {
      unused := 0;
    } else {
      var n :| n in used;
      var rest := Fresh(used - {n});
      unused := if rest > n then rest else n + 1;
      assert forall other :: other in used ==> other == n || other in used - {n};
    }
  }

  /** Any further, and a scan that is yet to begin can be disturbed. */
  lemma FurtherCleanBreaks(m: Machine, step: Step)
    requires Inv(m) && step.BeginClean? && Possible(m, step)
    requires !SafeBound(m.ix, MaxCleanRoot(step.minScanRoot, step.proposed))
    requires step.proposed.None? ==> m.ix.maxRoot + 2 <= SLOT_MAX
    ensures Breakable(Next(m, step))
  {
    UndisciplinedMeansNoScans(m, step);
    var m1 := Next(m, step);
    var root: Slot := if step.proposed.Some? then step.proposed.value else m.ix.maxRoot + 2;
    var bank := Fresh(m.ix.removedBanks);
    var id := Fresh(m.admitted.Keys + m.ended.Keys);
    var admit := AdmitScan(id, bank);
    var m2 := Next(m1, admit);
    assert ListsValid(m2.ix);
    if root == m.ix.maxRoot + 1 {
      var key: Pubkey :| RootedUpTo(m.ix, m.ix.maxRoot, key).Some? && !RootedUpTo(m.ix, m.ix.maxRoot, key).value.info.IsCached();
      StoredEntryBreaks(m2, step.clean, key, id, root);
    } else {
      ForkBreaks(m2, step.clean, 0, id, m.ix.maxRoot + 1, root);
    }
    StepToBreakable(m1, admit);
  }

  /**
   How far a clean may go is exact, in every state: up to the bound no careful run breaks a scan,
   beyond it some careful run does, as long as there are slots left to root.
   */
  lemma CleanBoundIsExact(m: Machine, step: Step)
    requires Inv(m) && step.BeginClean? && Possible(m, step)
    requires step.proposed.None? ==> m.ix.maxRoot + 2 <= SLOT_MAX
    ensures !Breakable(Next(m, step)) <==> SafeBound(m.ix, MaxCleanRoot(step.minScanRoot, step.proposed))
  {
    if SafeBound(m.ix, MaxCleanRoot(step.minScanRoot, step.proposed)) {
      SafeCleanIsUnbreakable(m, step);
    } else {
      FurtherCleanBreaks(m, step);
    }
  }

  // ---------------------------------------------------------------- the newest root

  const EMPTY := Machine(Index(map[], {}, 0, map[], {}), map[], map[], map[], map[])

  /** A first root 0 shows what is in slot 0. */
  lemma FirstRootBreaks(m: Machine)
    requires m.ix.roots == {} && m.ix.maxRoot == 0 && m.ix.ListOf(0) == [SlotEntry(0, STORED)]
    requires 0 in m.scans && m.scans[0].bank !in m.ix.removedBanks && m.scans[0].maxRoot == 0
    requires Look(m.scans[0], m.scans[0].begun, 0) == None
    ensures Breakable(m)
  {
    var m', entry := Next(m, AddRoot(0)), SlotEntry(0, STORED);
    var v, list := ScanView(m'.scans[0], m'.ix), m'.ix.ListOf(0);
    assert list == [entry];
    assert NewestSeen(v, list, 0);
    ResolveAt(v, list, 0);
    assert !Isolated(m'.scans[0], m'.ix);
    BrokenIsBreakable(m');
    StepToBreakable(m, AddRoot(0));
  }

  /** The newest root has to be alive: without any root, a first root 0 shows to a scan that began before it. */
  lemma WithoutARootScansBreak()
    ensures ListsValid(EMPTY.ix) && EMPTY.ix.roots == {} && Breakable(EMPTY)
  {
    var admit, begin, write := AdmitScan(0, 0), BeginScan(0, {}), Upsert(0, SlotEntry(0, STORED), None);
    var m1 := Next(EMPTY, admit);
    var m2 := Next(m1, begin);
    FirstRootBreaks(Next(m2, write));
    StepToBreakable(m2, write);
    StepToBreakable(m1, begin);
    StepToBreakable(EMPTY, admit);
  }
}
