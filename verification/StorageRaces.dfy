/**
 The storage map while slots are being shrunk, as a state machine. Looking up a store takes three
 separate reads of two shared maps; beginning and ending a shrink takes two separate steps each. All
 of them may be interleaved in any way.
 */
module StorageRaces {
  import opened Wrappers
  import opened SlotLists

  type StoreId = nat
  type ShrinkerId = nat
  type ReaderId = nat

  /** A store of accounts; `contents` stands for what is in it. */
  datatype Store = Store(id: StoreId, contents: nat)

  /** The id is kept beside the store, to be read without touching it. */
  datatype Reference = Reference(storage: Store, id: StoreId)

  function RefTo(store: Store): Reference {
    Reference(store, store.id)
  }

  /** How far a shrink has come: old store read, new store registered, old store replaced. */
  datatype Phase = Read | Registered | Replaced

  datatype Shrink = Shrink(slot: Slot, oldStore: Store, newStore: Store, phase: Phase)

  /** How far a reader has come: which of its three lookups is next, or what it returns. */
  datatype Progress = First | Second | Third | Found(store: Store) | Missed

  datatype Reader = Reader(slot: Slot, id: StoreId, progress: Progress)

  datatype State = State(
    stores: map<Slot, Reference>,
    shrinking: map<Slot, Store>,
    shrinks: map<ShrinkerId, Shrink>,
    readers: map<ReaderId, Reader>)

  datatype Step =
    | ReadOld(shrinker: ShrinkerId, slot: Slot, newStore: Store)
    | Register(shrinker: ShrinkerId)
    | Replace(shrinker: ShrinkerId)
    | Release(shrinker: ShrinkerId)
    | Insert(slot: Slot, store: Store)
    | Remove(slot: Slot)
    | StartRead(reader: ReaderId, slot: Slot, id: StoreId)
    | Lookup(reader: ReaderId)

  ghost predicate InPhase(st: State, k: ShrinkerId, phase: Phase) {
    k in st.shrinks && st.shrinks[k].phase == phase
  }

  /** The next step of each thread. */
  ghost predicate Possible(st: State, step: Step) {
    match step
    case ReadOld(k, _, _) => k !in st.shrinks
    case Register(k) => InPhase(st, k, Read)
    case Replace(k) => InPhase(st, k, Registered)
    case Release(k) => InPhase(st, k, Replaced)
    case StartRead(r, _, _) => r !in st.readers
    case Lookup(r) => r in st.readers && !st.readers[r].progress.Found? && !st.readers[r].progress.Missed?
    case _ => true
  }

  /** What the code asserts as it takes the step. */
  ghost predicate Asserted(st: State, step: Step) {
    match step
    case ReadOld(_, slot, _) => slot in st.stores
    case Register(k) => k in st.shrinks && st.shrinks[k].slot !in st.shrinking
    case Replace(k) =>
      k in st.shrinks && st.shrinks[k].slot in st.stores && st.stores[st.shrinks[k].slot].id == st.shrinks[k].oldStore.id
    case Release(k) => k in st.shrinks && st.shrinks[k].slot in st.shrinking
    case Insert(slot, _) => st.shrinking == map[] && slot !in st.stores
    case _ => true
  }

  ghost predicate BeingShrunk(st: State, slot: Slot) {
    exists k :: k in st.shrinks && st.shrinks[k].slot == slot
  }

  /**
   What the callers have to ensure: one shrink of a slot at a time, into a store with an id of its own.
   A slot is inserted once, while no shrink is registered; one that has only read its old store does no harm.
   */
  ghost predicate Disciplined(st: State, step: Step) {
    match step
    case ReadOld(_, slot, newStore) =>
      !BeingShrunk(st, slot) && slot in st.stores && newStore.id != st.stores[slot].id
    case Insert(slot, _) => st.shrinking == map[] && slot !in st.stores
    case Remove(slot) => !BeingShrunk(st, slot)
    case _ => true
  }

  // ---------------------------------------------------------------- steps

  function LookInStores(st: State, slot: Slot, id: StoreId): Option<Store> {
    if slot in st.stores && st.stores[slot].id == id then Some(st.stores[slot].storage) else None
  }

  function LookInShrinking(st: State, slot: Slot, id: StoreId): Option<Store> {
    if slot in st.shrinking && st.shrinking[slot].id == id then Some(st.shrinking[slot]) else None
  }

  /** One lookup of a reader: the stores, those being shrunk into, the stores again. */
  function Looked(st: State, reader: Reader): Reader {
    var found := if reader.progress == Second then LookInShrinking(st, reader.slot, reader.id)
                 else LookInStores(st, reader.slot, reader.id);
    if found.Some? then reader.(progress := Found(found.value))
    else reader.(progress := if reader.progress == First then Second else if reader.progress == Second then Third else Missed)
  }

  function Next(st: State, step: Step): State
    requires Possible(st, step) && Asserted(st, step)
  {
    match step
    case ReadOld(k, slot, newStore) =>
      st.(shrinks := st.shrinks[k := Shrink(slot, st.stores[slot].storage, newStore, Read)])
    case Register(k) =>
      var s := st.shrinks[k];
      st.(shrinking := st.shrinking[s.slot := s.newStore], shrinks := st.shrinks[k := s.(phase := Registered)])
    case Replace(k) =>
      var s := st.shrinks[k];
      st.(stores := st.stores[s.slot := RefTo(s.newStore)], shrinks := st.shrinks[k := s.(phase := Replaced)])
    case Release(k) => st.(shrinking := st.shrinking - {st.shrinks[k].slot}, shrinks := st.shrinks - {k})
    case Insert(slot, store) => st.(stores := st.stores[slot := RefTo(store)])
    case Remove(slot) => st.(stores := st.stores - {slot})
    case StartRead(r, slot, id) => st.(readers := st.readers[r := Reader(slot, id, First)])
    case Lookup(r) => st.(readers := st.readers[r := Looked(st, st.readers[r])])
  }

  // ---------------------------------------------------------------- invariant

  /** The ids beside the stores are theirs. */
  ghost predicate RefsValid(st: State) {
    forall slot :: slot in st.stores ==> st.stores[slot] == RefTo(st.stores[slot].storage)
  }

  /** What a shrink finds in the maps, in each phase. */
  ghost predicate ShrinkValid(st: State, s: Shrink) {
    && s.slot in st.stores && s.oldStore.id != s.newStore.id
    && st.stores[s.slot] == (if s.phase == Replaced then RefTo(s.newStore) else RefTo(s.oldStore))
    && (if s.phase == Read then s.slot !in st.shrinking else s.slot in st.shrinking && st.shrinking[s.slot] == s.newStore)
  }

  ghost predicate ShrinksValid(st: State) {
    && (forall k :: k in st.shrinks ==> ShrinkValid(st, st.shrinks[k]))
    && (forall j, k :: j in st.shrinks && k in st.shrinks && j != k ==> st.shrinks[j].slot != st.shrinks[k].slot)
    && (forall slot :: slot in st.shrinking ==> BeingShrunk(st, slot))
  }

  /** A store that a reader returns has the id it asked for. */
  ghost predicate ReadersValid(st: State) {
    forall r :: r in st.readers && st.readers[r].progress.Found? ==> st.readers[r].progress.store.id == st.readers[r].id
  }

  ghost predicate Inv(st: State) {
    RefsValid(st) && ShrinksValid(st) && ReadersValid(st)
  }

  /** None of the assertions of the code can fail. */
  lemma AssertionsHold(st: State, step: Step)
    requires Inv(st) && Possible(st, step) && Disciplined(st, step)
    ensures Asserted(st, step)
  {
    match step
    case Register(k) => assert ShrinkValid(st, st.shrinks[k]);
    case Replace(k) => assert ShrinkValid(st, st.shrinks[k]);
    case Release(k) => assert ShrinkValid(st, st.shrinks[k]);
    case _ =>
  }

  /** Who works on a slot, before and after a step. */
  lemma ShrinkerBefore(st: State, step: Step, k: ShrinkerId)
    requires Possible(st, step) && Asserted(st, step) && k in Next(st, step).shrinks
    ensures k in st.shrinks ==> Next(st, step).shrinks[k].(phase := Read) == st.shrinks[k].(phase := Read)
    ensures k !in st.shrinks ==> step == ReadOld(k, Next(st, step).shrinks[k].slot, Next(st, step).shrinks[k].newStore)
  {
  }

  lemma StepKeepsShrink(st: State, step: Step, k: ShrinkerId)
    requires RefsValid(st) && ShrinksValid(st) && Possible(st, step) && Asserted(st, step) && Disciplined(st, step)
    requires k in Next(st, step).shrinks
    ensures ShrinkValid(Next(st, step), Next(st, step).shrinks[k])
  {
    if k in st.shrinks {
      assert ShrinkValid(st, st.shrinks[k]);
    } else {
      assert !BeingShrunk(st, step.slot);
      assert step.slot !in st.shrinking;
    }
  }

  lemma StepKeepsApart(st: State, step: Step, j: ShrinkerId, k: ShrinkerId)
    requires ShrinksValid(st) && Possible(st, step) && Asserted(st, step) && Disciplined(st, step)
    requires j in Next(st, step).shrinks && k in Next(st, step).shrinks && j != k
    ensures Next(st, step).shrinks[j].slot != Next(st, step).shrinks[k].slot
  {
    ShrinkerBefore(st, step, j);
    ShrinkerBefore(st, step, k);
    assert step.ReadOld? ==> !BeingShrunk(st, step.slot);
  }

  lemma StepKeepsShrinker(st: State, step: Step, slot: Slot)
    requires ShrinksValid(st) && Possible(st, step) && Asserted(st, step) && slot in Next(st, step).shrinking
    ensures BeingShrunk(Next(st, step), slot)
  {
    var st' := Next(st, step);
    if step.Register? && st.shrinks[step.shrinker].slot == slot {
      assert st'.shrinks[step.shrinker].slot == slot;
    } else {
      assert slot in st.shrinking;
      assert BeingShrunk(st, slot);
      var k :| k in st.shrinks && st.shrinks[k].slot == slot;
      assert k in st'.shrinks && st'.shrinks[k].slot == slot;
    }
  }

  /** The invariant is kept by every step of every thread. */
  lemma StepKeepsInv(st: State, step: Step)
    requires Inv(st) && Possible(st, step) && Asserted(st, step) && Disciplined(st, step)
    ensures Inv(Next(st, step))
  {
    var st' := Next(st, step);
    forall k | k in st'.shrinks
      ensures ShrinkValid(st', st'.shrinks[k])
    {
      StepKeepsShrink(st, step, k);
    }
    forall j, k | j in st'.shrinks && k in st'.shrinks && j != k
      ensures st'.shrinks[j].slot != st'.shrinks[k].slot
    {
      StepKeepsApart(st, step, j, k);
    }
    forall slot | slot in st'.shrinking
      ensures BeingShrunk(st', slot)
    {
      StepKeepsShrinker(st, step, slot);
    }
    StepKeepsReaders(st, step);
  }

  lemma StepKeepsReaders(st: State, step: Step)
    requires RefsValid(st) && ReadersValid(st) && Possible(st, step) && Asserted(st, step)
    ensures RefsValid(Next(st, step)) && ReadersValid(Next(st, step))
  {
  }

  // ---------------------------------------------------------------- runs

  ghost predicate Run(st: State, steps: seq<Step>)
    decreases |steps|
  {
    steps == [] || (Possible(st, steps[0]) && Asserted(st, steps[0]) && Disciplined(st, steps[0])
                    && Run(Next(st, steps[0]), steps[1..]))
  }

  ghost function After(st: State, steps: seq<Step>): State
    requires Run(st, steps)
    decreases |steps|
  {
    if steps == [] then st else After(Next(st, steps[0]), steps[1..])
  }

  lemma {:induction false} RunKeepsInv(st: State, steps: seq<Step>)
    requires Inv(st) && Run(st, steps)
    ensures Inv(After(st, steps))
    decreases |steps|
  {
    if steps != [] {
      StepKeepsInv(st, steps[0]);
      RunKeepsInv(Next(st, steps[0]), steps[1..]);
    }
  }

  /** The store is registered: it can be found in one of the maps. */
  ghost predicate Available(st: State, slot: Slot, store: Store) {
    || (slot in st.stores && st.stores[slot] == RefTo(store))
    || (slot in st.shrinking && st.shrinking[slot] == store)
  }

  /** An inserted store can be found, and the slot of a removed one has none. */
  lemma InsertedIsAvailable(st: State, slot: Slot, store: Store)
    requires Possible(st, Insert(slot, store)) && Asserted(st, Insert(slot, store))
    ensures Available(Next(st, Insert(slot, store)), slot, store)
    ensures LookInStores(Next(st, Insert(slot, store)), slot, store.id) == Some(store)
  {
  }

  lemma RemovedIsNotAvailable(st: State, slot: Slot, store: Store)
    requires Inv(st) && Possible(st, Remove(slot)) && Disciplined(st, Remove(slot))
    ensures !Available(Next(st, Remove(slot)), slot, store)
    ensures forall other: Slot, s: Store :: other != slot && Available(st, other, s) ==>
              Available(Next(st, Remove(slot)), other, s)
  {
    assert slot in st.shrinking ==> BeingShrunk(st, slot);
  }

  /** The step neither removes the slot nor puts another store in the place of this one. */
  ghost predicate Spares(st: State, step: Step, slot: Slot, store: Store) {
    && step != Remove(slot)
    && (step.Replace? && step.shrinker in st.shrinks && st.shrinks[step.shrinker].slot == slot ==>
          st.shrinks[step.shrinker].newStore == store)
  }

  ghost predicate AllSpare(st: State, steps: seq<Step>, slot: Slot, store: Store)
    requires Run(st, steps)
    decreases |steps|
  {
    steps == [] || (Spares(st, steps[0], slot, store) && AllSpare(Next(st, steps[0]), steps[1..], slot, store))
  }

  /** A reader for the store that began when it was available. */
  ghost predicate OnTrack(st: State, r: ReaderId, slot: Slot, store: Store) {
    && r in st.readers && st.readers[r].slot == slot && st.readers[r].id == store.id
    && Available(st, slot, store)
    && match st.readers[r].progress
       case Third => slot in st.stores && st.stores[slot] == RefTo(store)
       case Found(found) => found == store
       case Missed => false
       case _ => true
  }

  lemma SparedStaysAvailable(st: State, step: Step, slot: Slot, store: Store)
    requires Inv(st) && Possible(st, step) && Asserted(st, step) && Disciplined(st, step)
    requires Available(st, slot, store) && Spares(st, step, slot, store)
    ensures Available(Next(st, step), slot, store)
    ensures slot in st.stores && st.stores[slot] == RefTo(store) ==>
              slot in Next(st, step).stores && Next(st, step).stores[slot] == RefTo(store)
  {
    match step
    case Register(k) => assert ShrinkValid(st, st.shrinks[k]);
    case Replace(k) => assert ShrinkValid(st, st.shrinks[k]);
    case Release(k) => assert ShrinkValid(st, st.shrinks[k]);
    case _ =>
  }

  /** Nothing else has the id of a store that is available. */
  lemma IdFindsTheStore(st: State, slot: Slot, store: Store)
    requires Inv(st) && Available(st, slot, store)
    ensures LookInStores(st, slot, store.id).Some? ==> LookInStores(st, slot, store.id).value == store
    ensures LookInShrinking(st, slot, store.id).Some? ==> LookInShrinking(st, slot, store.id).value == store
  {
    if slot in st.shrinking {
      assert BeingShrunk(st, slot);
      var k :| k in st.shrinks && st.shrinks[k].slot == slot;
      assert ShrinkValid(st, st.shrinks[k]);
    }
  }

  lemma StepKeepsOnTrack(st: State, step: Step, r: ReaderId, slot: Slot, store: Store)
    requires Inv(st) && Possible(st, step) && Asserted(st, step) && Disciplined(st, step)
    requires OnTrack(st, r, slot, store) && Spares(st, step, slot, store)
    ensures OnTrack(Next(st, step), r, slot, store)
  {
    SparedStaysAvailable(st, step, slot, store);
    IdFindsTheStore(st, slot, store);
  }

  lemma {:induction false} OnTrackToTheEnd(st: State, steps: seq<Step>, r: ReaderId, slot: Slot, store: Store)
    requires Inv(st) && Run(st, steps) && AllSpare(st, steps, slot, store) && OnTrack(st, r, slot, store)
    ensures OnTrack(After(st, steps), r, slot, store)
    decreases |steps|
  {
    if steps != [] {
      StepKeepsInv(st, steps[0]);
      StepKeepsOnTrack(st, steps[0], r, slot, store);
      OnTrackToTheEnd(Next(st, steps[0]), steps[1..], r, slot, store);
    }
  }

  /** The lookups of a reader in a run, and those it may still have to make. */
  ghost function Lookups(steps: seq<Step>, r: ReaderId): nat
    decreases |steps|
  {
    if steps == [] then 0 else (if steps[0] == Lookup(r) then 1 else 0) + Lookups(steps[1..], r)
  }

  function Left(progress: Progress): nat {
    match progress
    case First => 3
    case Second => 2
    case Third => 1
    case _ => 0
  }

  lemma {:induction false} LookupsAreFew(st: State, steps: seq<Step>, r: ReaderId)
    requires Run(st, steps) && r in st.readers
    ensures r in After(st, steps).readers
    ensures Lookups(steps, r) + Left(After(st, steps).readers[r].progress) <= Left(st.readers[r].progress)
    decreases |steps|
  {
    if steps != [] {
      LookupsAreFew(Next(st, steps[0]), steps[1..], r);
    }
  }

  /**
   A reader that began when the store was registered finds that very store in at most three lookups,
   in every interleaving in which the slot is not removed and no second shrink of it completes.
   */
  lemma RegisteredStoreIsFound(st: State, steps: seq<Step>, r: ReaderId, slot: Slot, store: Store)
    requires Inv(st) && Run(st, steps) && AllSpare(st, steps, slot, store)
    requires Available(st, slot, store) && r in st.readers && st.readers[r] == Reader(slot, store.id, First)
    ensures r in After(st, steps).readers
    ensures var progress := After(st, steps).readers[r].progress;
            !progress.Missed? && (progress == Found(store) || (0 < Left(progress) <= 3 - Lookups(steps, r)))
  {
    OnTrackToTheEnd(st, steps, r, slot, store);
    LookupsAreFew(st, steps, r);
  }

  /** The same from the start of the reader: it begins with its first lookup, whatever else is going on. */
  lemma StartedReaderFinds(st: State, steps: seq<Step>, r: ReaderId, slot: Slot, store: Store)
    requires Inv(st) && Available(st, slot, store) && steps != [] && steps[0] == StartRead(r, slot, store.id)
    requires Run(st, steps) && AllSpare(st, steps, slot, store)
    ensures r in After(st, steps).readers
    ensures var progress := After(st, steps).readers[r].progress;
            !progress.Missed? && (progress == Found(store) || (0 < Left(progress) <= 3 - Lookups(steps[1..], r)))
  {
    StepKeepsInv(st, steps[0]);
    SparedStaysAvailable(st, steps[0], slot, store);
    RegisteredStoreIsFound(Next(st, steps[0]), steps[1..], r, slot, store);
  }

  // ---------------------------------------------------------------- a second shrink

  ghost predicate MissesBy(st: State, steps: seq<Step>, r: ReaderId) {
    Run(st, steps) && r in After(st, steps).readers && After(st, steps).readers[r].progress == Missed
  }

  ghost predicate CanMiss(st: State, r: ReaderId) {
    exists steps :: MissesBy(st, steps, r)
  }

  lemma StepToMiss(st: State, step: Step, r: ReaderId)
    requires Possible(st, step) && Asserted(st, step) && Disciplined(st, step) && CanMiss(Next(st, step), r)
    ensures CanMiss(st, r)
  {
    var rest :| MissesBy(Next(st, step), rest, r);
    var steps := [step] + rest;
    assert steps[0] == step && steps[1..] == rest;
    assert MissesBy(st, steps, r);
  }

  /** After the first shrink has ended and the reader has one lookup left, a second shrink makes it miss. */
  lemma SecondShrinkMisses(slot: Slot, first: Store, second: Store)
    requires first.id != second.id
    ensures CanMiss(State(map[slot := RefTo(first)], map[], map[], map[0 := Reader(slot, first.id, Third)]), 0)
  {
    var reader := map[0 := Reader(slot, first.id, Third)];
    var st0 := State(map[slot := RefTo(first)], map[], map[], reader);
    var st1 := Next(st0, ReadOld(0, slot, second));
    var st2 := Next(st1, Register(0));
    var st3 := Next(st2, Replace(0));
    var st4 := Next(st3, Lookup(0));
    assert MissesBy(st4, [], 0);
    StepToMiss(st3, Lookup(0), 0);
    StepToMiss(st2, Replace(0), 0);
    StepToMiss(st1, Register(0), 0);
    StepToMiss(st0, ReadOld(0, slot, second), 0);
  }

  /** A slot whose new store has been registered, and a reader that wants it. */
  function MidShrink(slot: Slot, original: Store, first: Store): State {
    State(map[slot := RefTo(original)], map[slot := first], map[1 := Shrink(slot, original, first, Registered)],
          map[0 := Reader(slot, first.id, First)])
  }

  lemma MidShrinkIsValid(slot: Slot, original: Store, first: Store)
    requires original.id != first.id
    ensures Inv(MidShrink(slot, original, first)) && Available(MidShrink(slot, original, first), slot, first)
  {
    assert MidShrink(slot, original, first).shrinks[1].slot == slot;
  }

  /** The first lookup fails, the shrink ends, the second lookup fails. */
  lemma ShrinkEndsBetweenLookups(slot: Slot, original: Store, first: Store)
    requires original.id != first.id
    requires CanMiss(State(map[slot := RefTo(first)], map[], map[], map[0 := Reader(slot, first.id, Third)]), 0)
    ensures CanMiss(MidShrink(slot, original, first), 0)
  {
    var st0 := MidShrink(slot, original, first);
    var st1 := Next(st0, Lookup(0));
    assert st1.readers == map[0 := Reader(slot, first.id, Second)];
    var st2 := Next(st1, Replace(1));
    assert st2.stores == map[slot := RefTo(first)];
    var st3 := Next(st2, Release(1));
    assert st3.shrinking == map[] && st3.shrinks == map[];
    var st4 := Next(st3, Lookup(0));
    assert st4.readers == map[0 := Reader(slot, first.id, Third)];
    StepToMiss(st3, Lookup(0), 0);
    StepToMiss(st2, Release(1), 0);
    StepToMiss(st1, Replace(1), 0);
    StepToMiss(st0, Lookup(0), 0);
  }

  /**
   The condition on second shrinks is needed: a store that is registered when the reader begins can be
   missed if two shrinks of the slot complete between its first and its third lookup.
   */
  lemma TwoShrinksMiss(slot: Slot, original: Store, first: Store, second: Store)
    requires original.id != first.id && first.id != second.id
    ensures var st := MidShrink(slot, original, first);
            Inv(st) && Available(st, slot, first) && CanMiss(st, 0)
  {
    MidShrinkIsValid(slot, original, first);
    SecondShrinkMisses(slot, first, second);
    ShrinkEndsBetweenLookups(slot, original, first);
  }
}
