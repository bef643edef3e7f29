/** Which partitions a slot collects rent from, and that a chain of slots gets around to every key. */
module RentCycles {
  import opened Arith
  import opened Pubkeys
  import opened Partitions

  /** `get_partition_end_indexes`: the tiles of a partition. */
  function EndIndexes(p: Partition): seq<nat> {
    if p.start == p.end && p.start == 0 then [0]
    else if p.start >= p.end then []
    else seq(p.end - p.start, i requires 0 <= i < p.end - p.start => p.start + i + 1)
  }

  /** The key range of a partition and its end indexes are about the same tiles. */
  lemma RangeIsEndIndexes(p: Partition, key: Pubkey)
    requires Proper(p) && p.count > 1
    ensures PubkeyRange(p).Returned?
    ensures PubkeyRange(p).value.Has(key) <==> TileOf(PrefixFromPubkey(key), p.count) as nat in EndIndexes(p)
  {
    RangeIsTiles(p, key);
    var tile: nat := TileOf(PrefixFromPubkey(key), p.count);
    if FirstTile(p) <= tile <= p.end {
      assert EndIndexes(p)[tile - FirstTile(p)] == tile;
    }
  }

  /** The partitions from one index of a cycle to another, in the same or a later cycle. */
  function PartitionsAt(later: bool, from: U64, to: U64, count: U64): seq<Partition>
    requires from < count && to < count
  {
    if later && to > 0 then [Partition(from, count - 1, count), Partition(0, 0, count), Partition(0, to, count)]
    else if later then [Partition(0, 0, count)]
    else [Partition(from, to, count)]
  }

  /** The partitions of a slot, given its parent. */
  function PartitionsOf(slot: U64, parent: U64, count: U64): seq<Partition>
    requires count > 0
  {
    PartitionsAt(parent / count < slot / count, parent % count, slot % count, count)
  }

  method GetPartitions(slot: U64, parentSlot: U64, slotCountInTwoDay: U64) returns (partitions: seq<Partition>)
    requires slotCountInTwoDay > 0
    ensures partitions == PartitionsOf(slot, parentSlot, slotCountInTwoDay)
  {
    var parentCycle, currentCycle := parentSlot / slotCountInTwoDay, slot / slotCountInTwoDay;
    var parentCycleIndex: U64, currentCycleIndex: U64 := parentSlot % slotCountInTwoDay, slot % slotCountInTwoDay;
    partitions := [];
    if parentCycle < currentCycle {
      if currentCycleIndex > 0 {
        var parentLastCycleIndex: U64 := slotCountInTwoDay - 1;
        partitions := partitions + [Partition(parentCycleIndex, parentLastCycleIndex, slotCountInTwoDay)];
        partitions := partitions + [Partition(0, 0, slotCountInTwoDay)];
      }
      parentCycleIndex := 0;
    }
    partitions := partitions + [Partition(parentCycleIndex, currentCycleIndex, slotCountInTwoDay)];
  }

  function AllEndIndexes(ps: seq<Partition>): seq<nat> {
    if ps == [] then [] else AllEndIndexes(ps[..|ps| - 1]) + EndIndexes(ps[|ps| - 1])
  }

  /** The tiles that are due from after the parent up to the slot. */
  ghost function Due(parent: nat, slot: nat, count: nat): (due: seq<nat>)
    requires parent <= slot && count > 0
    ensures |due| == slot - parent
  {
    seq(slot - parent, i requires 0 <= i < slot - parent => (parent + i + 1) % count)
  }

  /** At most one cycle boundary is crossed, and no slot is skipped to land on the first slot of a cycle. */
  predicate Regular(parent: U64, slot: U64, count: U64)
    requires count > 0
  {
    || slot / count == parent / count
    || (slot / count == parent / count + 1 && (slot % count > 0 || parent % count == count - 1))
  }

  // ---------------------------------------------------------------- one step

  lemma ModIs(n: nat, count: nat, q: nat)
    requires count > 0 && q * count <= n < q * count + count
    ensures n / count == q && n % count == n - q * count
  {
    DivUnique(n, count, q);
    assert n == (n / count) * count + n % count;
  }

  ghost function UpTo(lo: nat, hi: nat): (s: seq<nat>)
    requires lo <= hi
    ensures |s| == hi - lo
  {
    seq(hi - lo, i requires 0 <= i < hi - lo => lo + i + 1)
  }

  lemma EndIndexesAreUpTo(p: Partition)
    requires p.start <= p.end && (p.start < p.end || p.start > 0)
    ensures EndIndexes(p) == UpTo(p.start, p.end)
  {
  }

  /** Within a cycle that starts at `base`. */
  lemma DueInCycle(base: nat, from: nat, to: nat, count: nat, q: nat)
    requires base == q * count && from <= to < count
    ensures Due(base + from, base + to, count) == UpTo(from, to)
  {
    forall i | 0 <= i < to - from
      ensures Due(base + from, base + to, count)[i] == UpTo(from, to)[i]
    {
      ModIs(base + from + i + 1, count, q);
    }
  }

  /** The first slot of the next cycle. */
  lemma DueAcross(base: nat, next: nat, count: nat, q: nat)
    requires base == q * count && next == base + count && count > 0
    ensures Due(next - 1, next, count) == [0]
  {
    MulSucc(q, count);
    ModIs(next, count, q + 1);
  }

  lemma DueAppend(a: nat, b: nat, c: nat, count: nat)
    requires a <= b <= c && count > 0
    ensures Due(a, c, count) == Due(a, b, count) + Due(b, c, count)
  {
  }

  lemma AllOfOne(p: Partition)
    ensures AllEndIndexes([p]) == EndIndexes(p)
  {
    assert [p][..0] == [];
  }

  lemma AllOfThree(p: Partition, q: Partition, r: Partition)
    ensures AllEndIndexes([p, q, r]) == EndIndexes(p) + EndIndexes(q) + EndIndexes(r)
  {
    AllOfOne(p);
    assert [p, q][..1] == [p] && [p, q, r][..2] == [p, q];
  }

  /** From one cycle into the next: the rest of the one, its first slot, and on. */
  lemma DueAcrossCycles(base: nat, from: nat, next: nat, to: nat, count: nat, q: nat)
    requires base == q * count && next == base + count && from < count && to < count
    ensures Due(base + from, next + to, count) == UpTo(from, count - 1) + [0] + UpTo(0, to)
  {
    DueAppend(base + from, next - 1, next + to, count);
    DueAppend(next - 1, next, next + to, count);
    DueInCycle(base, from, count - 1, count, q);
    DueAcross(base, next, count, q);
    MulSucc(q, count);
    DueInCycle(next, 0, to, count, q + 1);
  }

  lemma SameCycle(base: nat, from: U64, to: U64, count: U64, q: nat)
    requires base == q * count && from < to < count
    ensures AllEndIndexes(PartitionsAt(false, from, to, count)) == Due(base + from, base + to, count)
  {
    AllOfOne(Partition(from, to, count));
    DueInCycle(base, from, to, count, q);
  }

  lemma NextCycle(base: nat, from: U64, next: nat, to: U64, count: U64, q: nat)
    requires base == q * count && next == base + count && from < count && to < count
    ensures AllEndIndexes(PartitionsAt(true, from, to, count)) == Due(base + from, next + to, count) <==>
              to > 0 || from == count - 1
  {
    DueAcrossCycles(base, from, next, to, count, q);
    if to > 0 {
      AllOfThree(Partition(from, count - 1, count), Partition(0, 0, count), Partition(0, to, count));
      EndIndexesAreUpTo(Partition(from, count - 1, count));
    } else {
      AllOfOne(Partition(0, 0, count));
    }
  }

  /** In any full cycle, every tile is due exactly once. */
  lemma EveryTileIsDue(parent: nat, slot: nat, count: nat, tile: nat)
    requires count > 0 && tile < count && slot >= parent + count
    ensures tile in Due(parent, slot, count)
    ensures forall i, j :: 0 <= i < j < slot - parent && Due(parent, slot, count)[i] == tile == Due(parent, slot, count)[j] ==>
              j - i >= count
  {
    var q, first := (parent + 1) / count, (parent + 1) % count;
    DivMod(parent + 1, count);
    var i := if tile >= first then tile - first else tile + count - first;
    MulSucc(q, count);
    if tile >= first {
      ModIs(parent + i + 1, count, q);
    } else {
      ModIs(parent + i + 1, count, q + 1);
    }
    assert Due(parent, slot, count)[i] == tile;
    forall i, j | 0 <= i < j < slot - parent && Due(parent, slot, count)[i] == tile == Due(parent, slot, count)[j]
      ensures j - i >= count
    {
      ModGap(parent + i + 1, parent + j + 1, count);
    }
  }

  /** How often a tile is named. */
  ghost function Times(tile: nat, s: seq<nat>): nat {
    if s == [] then 0 else Times(tile, s[..|s| - 1]) + if s[|s| - 1] == tile then 1 else 0
  }

  lemma {:induction false} TimesAppend(tile: nat, a: seq<nat>, b: seq<nat>)
    ensures Times(tile, a + b) == Times(tile, a) + Times(tile, b)
    decreases |b|
  {
    if b == [] {
      assert a + b == a;
    } else {
      assert (a + b)[..|a + b| - 1] == a + b[..|b| - 1];
      TimesAppend(tile, a, b[..|b| - 1]);
    }
  }

  lemma {:induction false} NamedAtLeastOnce(tile: nat, s: seq<nat>)
    requires tile in s
    ensures Times(tile, s) > 0
    decreases |s|
  {
    if s[|s| - 1] != tile {
      NamedAtLeastOnce(tile, s[..|s| - 1]);
    }
  }

  /** At most what is due up to the next cycle is collected, however many cycles are crossed. */
  lemma OneCycleAtMost(base: nat, from: U64, parent: nat, to: U64, mid: nat, count: U64, q: nat, tile: nat)
    requires base == q * count && from < count && to < count && parent == base + from && mid == base + count + to
    ensures Times(tile, AllEndIndexes(PartitionsAt(true, from, to, count))) <= Times(tile, Due(parent, mid, count))
  {
    var next := base + count;
    NextCycle(base, from, next, to, count, q);
    if to == 0 {
      DueAcrossCycles(base, from, next, to, count, q);
      AllOfOne(Partition(0, 0, count));
      assert Due(parent, mid, count) == UpTo(from, count - 1) + [0];
      TimesAppend(tile, UpTo(from, count - 1), [0]);
    }
  }

  /** Of a later cycle, every tile is due once more. */
  lemma OnceMore(parent: nat, next: nat, slot: nat, count: nat, tile: nat)
    requires count > 0 && tile < count && parent <= next && next + count <= slot
    ensures Times(tile, Due(parent, next, count)) < Times(tile, Due(parent, slot, count))
  {
    DueAppend(parent, next, slot, count);
    TimesAppend(tile, Due(parent, next, count), Due(next, slot, count));
    EveryTileIsDue(next, slot, count, tile);
    NamedAtLeastOnce(tile, Due(next, slot, count));
  }

  lemma TwoCyclesOn(base: nat, last: nat, count: nat, a: nat, b: nat)
    requires base == a * count && last == b * count && a + 2 <= b
    ensures base + count + count <= last
  {
    MulSucc(a, count);
    MulSucc(a + 1, count);
    MulLe(a + 2, b, count);
  }

  /** A cycle that is skipped as a whole: every tile is collected from less often than it was due. */
  lemma LaterCycle(base: nat, from: U64, parent: nat, to: U64, slot: nat, count: U64, q: nat, tile: nat)
    requires base == q * count && from < count && to < count && tile < count
    requires parent == base + from && base + count + count + to <= slot
    ensures Times(tile, AllEndIndexes(PartitionsAt(true, from, to, count))) < Times(tile, Due(parent, slot, count))
  {
    var mid := base + count + to;
    OneCycleAtMost(base, from, parent, to, mid, count, q, tile);
    OnceMore(parent, mid, slot, count, tile);
  }

  /** The step from one position to another: cycles `a` and `b`, indexes `from` and `to`. */
  lemma StepAt(parent: nat, a: nat, from: U64, slot: nat, b: nat, to: U64, count: U64)
    requires from < count && to < count && parent == a * count + from && slot == b * count + to
    requires a <= b && parent < slot
    ensures AllEndIndexes(PartitionsAt(a < b, from, to, count)) == Due(parent, slot, count) <==>
              a == b || (b == a + 1 && (to > 0 || from == count - 1))
  {
    if a == b {
      SameCycle(a * count, from, to, count, a);
    } else if b == a + 1 {
      MulSucc(a, count);
      NextCycle(a * count, from, b * count, to, count, a);
    } else {
      TwoCyclesOn(a * count, b * count, count, a, b);
      LaterCycle(a * count, from, parent, to, slot, count, a, 0);
    }
  }

  lemma Positions(parent: U64, slot: U64, count: U64)
    requires count > 0 && parent <= slot
    ensures parent == (parent / count) * count + parent % count && parent % count < count
    ensures slot == (slot / count) * count + slot % count && slot % count < count
    ensures parent / count <= slot / count
  {
    DivMod(parent, count);
    DivMod(slot, count);
    DivMonotone(parent, slot, count);
  }

  /** The end indexes of a slot are what is due since its parent, exactly if the step is regular. */
  lemma StepIsDueExactly(slot: U64, parent: U64, count: U64)
    requires count > 0 && parent < slot
    ensures AllEndIndexes(PartitionsOf(slot, parent, count)) == Due(parent, slot, count) <==> Regular(parent, slot, count)
  {
    Positions(parent, slot, count);
    StepAt(parent, parent / count, parent % count, slot, slot / count, slot % count, count);
  }

  // ---------------------------------------------------------------- chains of slots

  /** Slots, each of them a regular step from the one before. */
  ghost predicate Chain(slots: seq<U64>, count: U64)
    requires count > 0
  {
    forall i :: 0 <= i < |slots| - 1 ==> slots[i] < slots[i + 1] && Regular(slots[i], slots[i + 1], count)
  }

  /** The partitions of the slots of a chain after its first. */
  ghost function StepsOf(slots: seq<U64>, count: U64): seq<seq<Partition>>
    requires count > 0 && slots != []
  {
    seq(|slots| - 1, i requires 0 <= i < |slots| - 1 => PartitionsOf(slots[i + 1], slots[i], count))
  }

  ghost function Visited(steps: seq<seq<Partition>>): seq<nat> {
    if steps == [] then [] else Visited(steps[..|steps| - 1]) + AllEndIndexes(steps[|steps| - 1])
  }

  lemma {:induction false} ChainIsIncreasing(slots: seq<U64>, count: U64)
    requires count > 0 && slots != [] && Chain(slots, count)
    ensures slots[0] <= slots[|slots| - 1]
    decreases |slots|
  {
    if |slots| > 1 {
      var n := |slots| - 1;
      ChainIsIncreasing(slots[..n], count);
      assert slots[n - 1] < slots[n];
    }
  }

  /** The end indexes along a chain are consecutive, modulo the number of partitions. */
  lemma {:induction false} ChainVisitsWhatIsDue(slots: seq<U64>, count: U64)
    requires count > 0 && slots != [] && Chain(slots, count)
    ensures slots[0] <= slots[|slots| - 1]
    ensures Visited(StepsOf(slots, count)) == Due(slots[0], slots[|slots| - 1], count)
    decreases |slots|
  {
    ChainIsIncreasing(slots, count);
    if |slots| > 1 {
      var n := |slots| - 1;
      ChainVisitsWhatIsDue(slots[..n], count);
      assert StepsOf(slots, count)[..n - 1] == StepsOf(slots[..n], count);
      assert slots[n - 1] < slots[n] && Regular(slots[n - 1], slots[n], count);
      StepIsDueExactly(slots[n], slots[n - 1], count);
      DueAppend(slots[0], slots[n - 1], slots[n], count);
    }
  }

  lemma {:induction false} EndIndexComesFrom(ps: seq<Partition>, tile: nat) returns (p: Partition)
    requires tile in AllEndIndexes(ps)
    ensures p in ps && tile in EndIndexes(p)
    decreases |ps|
  {
    p := ps[|ps| - 1];
    if tile !in EndIndexes(p) {
      p := EndIndexComesFrom(ps[..|ps| - 1], tile);
    }
  }

  lemma {:induction false} VisitComesFrom(steps: seq<seq<Partition>>, tile: nat) returns (i: nat, p: Partition)
    requires tile in Visited(steps)
    ensures i < |steps| && p in steps[i] && tile in EndIndexes(p)
    decreases |steps|
  {
    i := |steps| - 1;
    if tile in Visited(steps[..i]) {
      i, p := VisitComesFrom(steps[..i], tile);
    } else {
      p := EndIndexComesFrom(steps[i], tile);
    }
  }

  ghost predicate Reaches(p: Partition, key: Pubkey) {
    PubkeyRange(p).Returned? && PubkeyRange(p).value.Has(key)
  }

  /** One of the partitions has the key in its range. */
  ghost predicate Collects(ps: seq<Partition>, key: Pubkey) {
    exists p :: p in ps && Reaches(p, key)
  }

  /** A partition of a slot reaches the keys of its tiles. */
  lemma PartitionReachesItsTiles(later: bool, from: U64, to: U64, count: U64, p: Partition, key: Pubkey)
    requires count > 1 && from < count && to < count && p in PartitionsAt(later, from, to, count)
    requires TileOf(PrefixFromPubkey(key), count) as nat in EndIndexes(p)
    ensures Reaches(p, key)
  {
    RangeIsEndIndexes(p, key);
  }

  lemma SlotReachesItsTiles(slot: U64, parent: U64, count: U64, p: Partition, key: Pubkey)
    requires count > 1 && p in PartitionsOf(slot, parent, count)
    requires TileOf(PrefixFromPubkey(key), count) as nat in EndIndexes(p)
    ensures Reaches(p, key)
  {
    PartitionReachesItsTiles(parent / count < slot / count, parent % count, slot % count, count, p, key);
  }

  /** A chain that is a full cycle long collects rent from every key. */
  lemma FullCycleCollectsFromEveryKey(slots: seq<U64>, count: U64, key: Pubkey) returns (i: nat)
    requires count > 1 && slots != [] && Chain(slots, count) && slots[|slots| - 1] >= slots[0] + count
    ensures i < |slots| - 1 && Collects(PartitionsOf(slots[i + 1], slots[i], count), key)
  {
    var tile: nat := TileOf(PrefixFromPubkey(key), count);
    ChainVisitsWhatIsDue(slots, count);
    EveryTileIsDue(slots[0], slots[|slots| - 1], count, tile);
    var p;
    i, p := VisitComesFrom(StepsOf(slots, count), tile);
    SlotReachesItsTiles(slots[i + 1], slots[i], count, p, key);
  }

  /** A partition from an index to itself is for nothing: its range is a single key. */
  lemma NoopIsOneKey(p: Partition)
    requires 0 < p.start == p.end < p.count
    ensures EndIndexes(p) == [] && PubkeyRange(p).Returned?
    ensures var range := PubkeyRange(p).value;
            range.lo == range.hi == if p.end == p.count - 1 then PUBKEY_SPACE - 1
                                    else PubkeyRange(TilePartition(p.end + 1, p.count)).value.lo
  {
    if p.end < p.count - 1 {
      NoWrap(p.count, p.end + 1);
    }
  }

  /** A skipped cycle boundary leaves tiles out: those after the parent, when the slot starts a cycle. */
  lemma SkippingToACycleStartLosesTiles(parent: U64, slot: U64, count: U64, tile: nat)
    requires count > 0 && parent < slot && slot / count == parent / count + 1 && slot % count == 0
    requires parent % count < tile < count
    ensures tile in Due(parent, slot, count) && tile !in AllEndIndexes(PartitionsOf(slot, parent, count))
  {
    AllOfOne(Partition(0, 0, count));
    DivMod(parent, count);
    DivMod(slot, count);
    MulSucc(parent / count, count);
    var i := tile - parent % count - 1;
    ModIs(parent + i + 1, count, parent / count);
    assert Due(parent, slot, count)[i] == tile;
  }

  /** Skipping a whole cycle or more leaves every tile out at least once. */
  lemma SkippingACycleLosesEveryTile(parent: U64, slot: U64, count: U64, tile: nat)
    requires count > 0 && parent < slot && slot / count >= parent / count + 2 && tile < count
    ensures Times(tile, AllEndIndexes(PartitionsOf(slot, parent, count))) < Times(tile, Due(parent, slot, count))
  {
    Positions(parent, slot, count);
    var base, last := (parent / count) * count, (slot / count) * count;
    TwoCyclesOn(base, last, count, parent / count, slot / count);
    LaterCycle(base, parent % count, parent, slot % count, slot, count, parent / count, tile);
  }
}
