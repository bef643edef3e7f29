/**
 The fan-out Merkle tree of the accounts hasher.

 `Level` and `Root` say what the tree is: cut the list into groups of `fanout`, hash every group,
 repeat. `ComputeMerkleRootFromSlices` is the fast form: it reads its input through a slice
 provider and hashes three levels of the tree in one pass.

 `Hasher` is any function on lists of hashes: feeding hashes to a hasher one after the other
 and asking for the result is applying it to the list fed so far.
 */
module Merkle {
  import opened Wrappers
  import opened Arith

  type Hash = nat
  type Hasher = seq<Hash> -> Hash

  const MERKLE_FANOUT: nat := 16

  /** The hash that is returned beside the list when a specific level count is asked for. */
  const DEFAULT_HASH: Hash := 0

  function DivCeil(x: nat, y: nat): (r: nat)
    requires y > 0
    ensures x <= r * y < x + y
  {
    var q := x / y;
    assert q * y + x % y == x;
    if x % y != 0 then q + 1 else q
  }

  /** One level of the tree. */
  function Level(h: Hasher, fanout: nat, hs: seq<Hash>): seq<Hash>
    requires fanout >= 1
    decreases |hs|
  {
    if hs == [] then []
    else if |hs| <= fanout then [h(hs)]
    else [h(hs[..fanout])] + Level(h, fanout, hs[fanout..])
  }

  /** `n` levels of the tree. */
  function Levels(h: Hasher, fanout: nat, hs: seq<Hash>, n: nat): seq<Hash>
    requires fanout >= 1
    decreases n
  {
    if n == 0 then hs else Levels(h, fanout, Level(h, fanout, hs), n - 1)
  }

  function Pow(b: nat, n: nat): nat {
    if n == 0 then 1 else b * Pow(b, n - 1)
  }

  // ---------------------------------------------------------------- lengths

  lemma {:induction false} LevelLength(h: Hasher, fanout: nat, hs: seq<Hash>)
    requires fanout >= 1
    ensures |hs| <= |Level(h, fanout, hs)| * fanout < |hs| + fanout
    decreases |hs|
  {
    if |hs| > fanout {
      LevelLength(h, fanout, hs[fanout..]);
      var n := |Level(h, fanout, hs[fanout..])|;
      assert (n + 1) * fanout == n * fanout + fanout;
    }
  }

  lemma LevelLengthAtMost(h: Hasher, fanout: nat, hs: seq<Hash>, k: nat)
    requires fanout >= 1 && |hs| <= k * fanout
    ensures |Level(h, fanout, hs)| <= k
  {
    LevelLength(h, fanout, hs);
    MulLe(k + 1, |Level(h, fanout, hs)|, fanout);
    assert (k + 1) * fanout == k * fanout + fanout;
  }

  lemma LevelLengthAtLeast(h: Hasher, fanout: nat, hs: seq<Hash>, k: nat)
    requires fanout >= 1 && |hs| >= k * fanout
    ensures |Level(h, fanout, hs)| >= k
  {
    LevelLength(h, fanout, hs);
    var n := |Level(h, fanout, hs)|;
    MulLe(n + 1, k, fanout);
    assert (n + 1) * fanout == n * fanout + fanout;
  }

  /** `n` levels shrink at most `k * fanout^n` hashes to at most `k`, and never to none. */
  lemma {:induction false} LevelsLengthAtMost(h: Hasher, fanout: nat, hs: seq<Hash>, n: nat, k: nat)
    requires fanout >= 1 && 0 < |hs| <= k * Pow(fanout, n)
    ensures 0 < |Levels(h, fanout, hs, n)| <= k
    decreases n
  {
    if n > 0 {
      assert k * Pow(fanout, n) == (k * Pow(fanout, n - 1)) * fanout by {
        MulShuffle(k, fanout, Pow(fanout, n - 1));
      }
      LevelLength(h, fanout, hs);
      LevelLengthAtMost(h, fanout, hs, k * Pow(fanout, n - 1));
      LevelsLengthAtMost(h, fanout, Level(h, fanout, hs), n - 1, k);
    }
  }

  lemma MulShuffle(k: nat, f: nat, p: nat)
    ensures k * (f * p) == (k * p) * f
  {
  }

  // ---------------------------------------------------------------- appending

  /** A level of a concatenation, when the first part fills its groups. */
  lemma {:induction false} LevelAppend(h: Hasher, fanout: nat, a: seq<Hash>, b: seq<Hash>, k: nat)
    requires fanout >= 1 && |a| == k * fanout
    ensures Level(h, fanout, a + b) == Level(h, fanout, a) + Level(h, fanout, b)
    ensures |Level(h, fanout, a)| == k
    decreases k
  {
    if k == 0 {
      assert a + b == b;
    } else {
      assert |a| == (k - 1) * fanout + fanout;
      var a' := a[fanout..];
      LevelAppend(h, fanout, a', b, k - 1);
      assert (a + b)[..fanout] == a[..fanout];
      assert (a + b)[fanout..] == a' + b;
      if |a| == fanout {
        assert a[..fanout] == a && a' == [];
        assert b == [] ==> a + b == a;
        assert a' + b == b;
      }
    }
  }

  lemma {:induction false} LevelsAppend(h: Hasher, fanout: nat, a: seq<Hash>, b: seq<Hash>, n: nat, k: nat)
    requires fanout >= 1 && |a| == k * Pow(fanout, n)
    ensures Levels(h, fanout, a + b, n) == Levels(h, fanout, a, n) + Levels(h, fanout, b, n)
    decreases n
  {
    if n > 0 {
      var k' := k * Pow(fanout, n - 1);
      MulShuffle(k, fanout, Pow(fanout, n - 1));
      LevelAppend(h, fanout, a, b, k');
      LevelsAppend(h, fanout, Level(h, fanout, a), Level(h, fanout, b), n - 1, k);
    }
  }

  /** The last of `n + 1` levels is one more level on top of `n`. */
  lemma {:induction false} LevelsSnoc(h: Hasher, fanout: nat, hs: seq<Hash>, n: nat)
    requires fanout >= 1
    ensures Levels(h, fanout, hs, n + 1) == Level(h, fanout, Levels(h, fanout, hs, n))
    decreases n
  {
    if n > 0 {
      LevelsSnoc(h, fanout, Level(h, fanout, hs), n - 1);
    }
  }

  lemma {:induction false} LevelsAdd(h: Hasher, fanout: nat, hs: seq<Hash>, m: nat, n: nat)
    requires fanout >= 1
    ensures Levels(h, fanout, Levels(h, fanout, hs, m), n) == Levels(h, fanout, hs, m + n)
    decreases m
  {
    if m > 0 {
      LevelsAdd(h, fanout, Level(h, fanout, hs), m - 1, n);
    }
  }

  /** `n + 1` levels of a list that fits `fanout^(n+1)` are one hash, of its `n` levels. */
  lemma LevelsTop(h: Hasher, fanout: nat, hs: seq<Hash>, n: nat)
    requires fanout >= 1 && 0 < |hs| <= fanout * Pow(fanout, n)
    ensures Levels(h, fanout, hs, n + 1) == [h(Levels(h, fanout, hs, n))]
  {
    LevelsLengthAtMost(h, fanout, hs, n, fanout);
    LevelsSnoc(h, fanout, hs, n);
  }

  /** Adding one more chunk of at most `fanout^(n+1)` hashes adds one hash. */
  lemma LevelsExtend(h: Hasher, fanout: nat, a: seq<Hash>, b: seq<Hash>, n: nat, k: nat)
    requires fanout >= 1 && |a| == k * Pow(fanout, n + 1)
    requires 0 < |b| <= Pow(fanout, n + 1)
    ensures Levels(h, fanout, a + b, n + 1) == Levels(h, fanout, a, n + 1) + [h(Levels(h, fanout, b, n))]
  {
    LevelsAppend(h, fanout, a, b, n + 1, k);
    LevelsTop(h, fanout, b, n);
  }

  // ---------------------------------------------------------------- the root

  /** The root of the tree: levels are taken until one hash is left. */
  function Root(h: Hasher, fanout: nat, hs: seq<Hash>): Hash
    requires fanout >= 2
    decreases |hs|
  {
    if hs == [] then h([])
    else
      var level := Level(h, fanout, hs);
      LevelLength(h, fanout, hs);
      if |level| == 1 then level[0] else
        assert |level| < |hs| by { LevelShrinks(h, fanout, hs); }
        Root(h, fanout, level)
  }

  lemma LevelShrinks(h: Hasher, fanout: nat, hs: seq<Hash>)
    requires fanout >= 2 && hs != [] && |Level(h, fanout, hs)| != 1
    ensures 1 < |Level(h, fanout, hs)| < |hs|
  {
    LevelLength(h, fanout, hs);
    ManyGroups(|Level(h, fanout, hs)|, fanout, |hs|);
  }

  lemma ManyGroups(n: nat, fanout: nat, length: nat)
    requires fanout >= 2 && n >= 2 && n * fanout < length + fanout
    ensures n < length
  {
    var m := n - 1;
    assert n * fanout == m * fanout + fanout;
    assert m * fanout >= m * 2;
  }

  /** What is left to do after some levels were hashed in one pass. */
  function Finish(h: Hasher, fanout: nat, level: seq<Hash>): Hash
    requires fanout >= 2
  {
    if |level| == 1 then level[0] else Root(h, fanout, level)
  }

  /** Up to the fanout, there is one hash over all, also over none. */
  lemma RootOfFew(h: Hasher, fanout: nat, hs: seq<Hash>)
    requires fanout >= 2 && |hs| <= fanout
    ensures Root(h, fanout, hs) == h(hs)
  {
  }

  lemma {:induction false} RootFinishes(h: Hasher, fanout: nat, hs: seq<Hash>, n: nat)
    requires fanout >= 2 && hs != []
    requires n == 0 || |hs| >= 2 * Pow(fanout, n)
    ensures Root(h, fanout, hs) == Finish(h, fanout, Levels(h, fanout, hs, n + 1))
    decreases n
  {
    if n > 0 {
      var level := Level(h, fanout, hs);
      MulShuffle(2, fanout, Pow(fanout, n - 1));
      LevelLengthAtLeast(h, fanout, hs, 2 * Pow(fanout, n - 1));
      PowPositive(fanout, n - 1);
      RootFinishes(h, fanout, level, n - 1);
    }
  }

  lemma {:induction false} PowPositive(b: nat, n: nat)
    requires b >= 1
    ensures Pow(b, n) >= 1
  {
    if n > 0 {
      PowPositive(b, n - 1);
    }
  }

  lemma PowThree(f: nat)
    ensures Pow(f, 1) == f && Pow(f, 2) == f * f && Pow(f, 3) == f * f * f
  {
    assert Pow(f, 0) == 1;
    assert Pow(f, 1) == f;
    assert Pow(f, 2) == f * f;
    assert f * (f * f) == f * f * f;
  }

  // ---------------------------------------------------------------- the simple loop

  /** The whole list at hand: hash the groups of one level, recurse on the result. */
  method ComputeMerkleRootLoop(h: Hasher, hashes: seq<Hash>, fanout: nat) returns (root: Hash)
    requires fanout >= 2
    ensures root == Root(h, fanout, hashes)
    decreases |hashes|
  {
    if hashes == [] {
      return h([]);
    }
    var total := |hashes|;
    var chunks := DivCeil(total, fanout);
    var result := [];
    for i := 0 to chunks
      invariant i == chunks || i * fanout < total
      invariant result == Level(h, fanout, hashes[..Min(i * fanout, total)])
    {
      var startIndex := i * fanout;
      var endIndex := Min(startIndex + fanout, total);
      var hashed := [];
      for k := startIndex to endIndex
        invariant hashed == hashes[startIndex..k]
      {
        hashed := hashed + [hashes[k]];
      }
      LevelAppend(h, fanout, hashes[..startIndex], hashed, i);
      assert hashes[..startIndex] + hashed == hashes[..endIndex];
      result := result + [h(hashed)];
      NextChunk(total, fanout, i, chunks);
    }
    assert hashes[..total] == hashes;
    LevelLength(h, fanout, hashes);
    if |result| == 1 {
      root := result[0];
    } else {
      LevelShrinks(h, fanout, hashes);
      root := ComputeMerkleRootLoop(h, result, fanout);
    }
  }

  lemma NextChunk(total: nat, width: nat, i: nat, chunks: nat)
    requires width > 0 && i < chunks
    requires total <= chunks * width < total + width
    ensures (i + 1) * width == i * width + width
    ensures i + 1 < chunks ==> (i + 1) * width < total
    ensures i + 1 == chunks ==> (i + 1) * width >= total
  {
    if i + 1 < chunks {
      assert (i + 2) * width <= chunks * width;
      assert (i + 2) * width == (i + 1) * width + width;
    }
  }

  // ---------------------------------------------------------------- the fast form

  /** How many hashes a chunk takes, how many levels a pass hashes, and whether it is the fast pass. */
  function CalculateThreeLevelChunks(total: nat, fanout: nat, maxLevelsPerPass: Option<nat>,
                                     specificLevelCount: Option<nat>): (r: (nat, nat, bool))
    requires fanout >= 2
    ensures r.0 == Pow(fanout, r.1) && r.0 >= 1
    ensures if r.2 then r.1 == 3 && total >= 2 * Pow(fanout, 2) else r.1 == 1
    ensures specificLevelCount.Some? && specificLevelCount.value >= 1 ==> r.1 <= specificLevelCount.value
    ensures maxLevelsPerPass.None? && specificLevelCount.None? ==> (r.2 <==> total >= Pow(fanout, 4))
    ensures maxLevelsPerPass.Some? && maxLevelsPerPass.value < 3 ==> !r.2
  {
    PowThree(fanout);
    assert Pow(fanout, 4) == fanout * Pow(fanout, 3);
    PowPositive(fanout, 3);
    ThresholdIsLarge(fanout);
    var target := fanout * fanout * fanout;
    var threshold := target * fanout;
    var allowed := maxLevelsPerPass.None? || maxLevelsPerPass.value >= 3;
    var asked := specificLevelCount.None? || specificLevelCount.value >= 3;
    if allowed && total >= threshold && asked then (target, 3, true) else (fanout, 1, false)
  }

  lemma ThresholdIsLarge(f: nat)
    requires f >= 2
    ensures f * f * f * f >= 2 * (f * f)
  {
    var s := f * f;
    assert f * f * f * f == s * s;
    assert s >= 2 * 2;
    assert s * s >= 2 * s;
  }

  /** `slice(i)` is a non-empty part of the remaining hashes, for every `i` in range. */
  ghost predicate SliceProvider(slice: nat -> seq<Hash>, hs: seq<Hash>) {
    forall i: nat :: i < |hs| ==> slice(i) != [] && slice(i) <= hs[i..]
  }

  /** From `index` on, `data` is what the hashes at position `i` look like. */
  ghost predicate Follows(hs: seq<Hash>, i: nat, data: seq<Hash>, index: nat) {
    index < |data| ==> i + (|data| - index) <= |hs| && data[index..] == hs[i..i + (|data| - index)]
  }

  /** One read of the closures: fetch the next slice when the current one is used up. */
  method NextHash(ghost hs: seq<Hash>, slice: nat -> seq<Hash>, i: nat, data: seq<Hash>, index: nat)
    returns (x: Hash, data': seq<Hash>, index': nat)
    requires i < |hs| && SliceProvider(slice, hs) && Follows(hs, i, data, index)
    ensures x == hs[i] && Follows(hs, i + 1, data', index')
  {
    data', index' := data, index;
    if index' >= |data'| {
      data' := slice(i);
      index' := 0;
      assert data' <= hs[i..];
    }
    x := data'[index'];
    assert x == data'[index'..][0];
    FollowsNext(hs, i, data', index');
    index' := index' + 1;
  }

  lemma FollowsNext(hs: seq<Hash>, i: nat, data: seq<Hash>, index: nat)
    requires Follows(hs, i, data, index)
    ensures Follows(hs, i + 1, data, index + 1)
  {
    if index + 1 < |data| {
      assert data[index + 1..] == data[index..][1..];
    }
  }

  /** One group: the hash of `hs[start..end]`. */
  method HashGroup(h: Hasher, ghost hs: seq<Hash>, slice: nat -> seq<Hash>, start: nat, end: nat,
                   data: seq<Hash>, index: nat)
    returns (hash: Hash, data': seq<Hash>, index': nat)
    requires start <= end <= |hs| && SliceProvider(slice, hs) && Follows(hs, start, data, index)
    ensures hash == h(hs[start..end]) && Follows(hs, end, data', index')
  {
    data', index' := data, index;
    var hashed := [];
    for i := start to end
      invariant Follows(hs, i, data', index')
      invariant hashed == hs[start..i]
    {
      var x;
      x, data', index' := NextHash(hs, slice, i, data', index');
      hashed := hashed + [x];
    }
    hash := h(hashed);
  }

  /** Up to `fanout` groups: two levels at once, for the next `fanout^2` hashes or what is left. */
  method HashTwoLevels(h: Hasher, fanout: nat, ghost hs: seq<Hash>, slice: nat -> seq<Hash>, start: nat, end: nat,
                       data: seq<Hash>, index: nat)
    returns (hash: Hash, i: nat, data': seq<Hash>, index': nat)
    requires fanout >= 2 && start < end <= |hs| && SliceProvider(slice, hs) && Follows(hs, start, data, index)
    ensures i == Min(start + fanout * fanout, end)
    ensures hash == h(Level(h, fanout, hs[start..i])) && Follows(hs, i, data', index')
  {
    i, data', index' := start, data, index;
    var middle := [];
    assert hs[start..start] == [];
    for j := 0 to fanout
      invariant i == start + j * fanout < end
      invariant middle == Level(h, fanout, hs[start..i])
      invariant Follows(hs, i, data', index')
    {
      var next := i + Min(end - i, fanout);
      var low;
      low, data', index' := HashGroup(h, hs, slice, i, next, data', index');
      ExtendMiddle(h, fanout, hs, start, i, next, j);
      middle := middle + [low];
      i := next;
      if i >= end {
        break;
      }
    }
    hash := h(middle);
  }

  lemma ExtendMiddle(h: Hasher, fanout: nat, hs: seq<Hash>, start: nat, i: nat, next: nat, j: nat)
    requires fanout >= 2 && j < fanout && i == start + j * fanout
    requires i < next <= i + fanout && next <= |hs|
    ensures Level(h, fanout, hs[start..next]) == Level(h, fanout, hs[start..i]) + [h(hs[i..next])]
    ensures (j + 1) * fanout == j * fanout + fanout <= fanout * fanout
  {
    LevelAppend(h, fanout, hs[start..i], hs[i..next], j);
    assert hs[start..i] + hs[i..next] == hs[start..next];
    MulLe(j + 1, fanout, fanout);
  }

  /** The fast pass over one chunk: three levels at once. */
  method HashThreeLevels(h: Hasher, fanout: nat, ghost hs: seq<Hash>, slice: nat -> seq<Hash>, start: nat, end: nat,
                         first: seq<Hash>)
    returns (hash: Hash)
    requires fanout >= 2 && start < end <= |hs| && SliceProvider(slice, hs) && Follows(hs, start, first, start)
    ensures hash == h(Levels(h, fanout, hs[start..end], 2))
  {
    var i, data, index := start, first, start;
    var top := [];
    ghost var groups := 0;
    assert hs[start..start] == [];
    while i < end
      invariant start <= i <= end
      invariant i < end ==> i == start + groups * (fanout * fanout)
      invariant top == Levels(h, fanout, hs[start..i], 2)
      invariant Follows(hs, i, data, index)
      decreases end - i
    {
      var middle, next;
      middle, next, data, index := HashTwoLevels(h, fanout, hs, slice, i, end, data, index);
      ExtendTop(h, fanout, hs, start, i, next, groups);
      top := top + [middle];
      i, groups := next, groups + 1;
    }
    hash := h(top);
  }

  lemma ExtendTop(h: Hasher, fanout: nat, hs: seq<Hash>, start: nat, i: nat, next: nat, groups: nat)
    requires fanout >= 2 && i == start + groups * (fanout * fanout)
    requires i < next <= i + fanout * fanout && next <= |hs|
    ensures Levels(h, fanout, hs[start..next], 2)
         == Levels(h, fanout, hs[start..i], 2) + [h(Level(h, fanout, hs[i..next]))]
    ensures (groups + 1) * (fanout * fanout) == groups * (fanout * fanout) + fanout * fanout
  {
    PowThree(fanout);
    LevelsExtend(h, fanout, hs[start..i], hs[i..next], 1, groups);
    assert Levels(h, fanout, hs[i..next], 1) == Level(h, fanout, hs[i..next]);
    assert hs[start..i] + hs[i..next] == hs[start..next];
  }

  /** One chunk of the pass: `hs[start..end]` becomes one hash, through one or three levels. */
  method HashChunk(h: Hasher, fanout: nat, ghost hs: seq<Hash>, slice: nat -> seq<Hash>, start: nat, end: nat,
                   first: seq<Hash>, threeLevel: bool)
    returns (hash: Hash)
    requires fanout >= 2 && start < end <= |hs| && SliceProvider(slice, hs) && Follows(hs, start, first, start)
    ensures hash == h(Levels(h, fanout, hs[start..end], if threeLevel then 2 else 0))
  {
    if !threeLevel {
      var data, index;
      hash, data, index := HashGroup(h, hs, slice, start, end, first, start);
    } else {
      hash := HashThreeLevels(h, fanout, hs, slice, start, end, first);
    }
  }

  /** One pass over the input: `levels` levels of the tree. */
  method HashPass(h: Hasher, fanout: nat, ghost hs: seq<Hash>, total: nat, slice: nat -> seq<Hash>, width: nat,
                  ghost levels: nat, threeLevel: bool)
    returns (result: seq<Hash>)
    requires fanout >= 2 && total == |hs| > 0 && SliceProvider(slice, hs)
    requires levels == (if threeLevel then 3 else 1) && width == Pow(fanout, levels) >= 1
    ensures result == Levels(h, fanout, hs, levels)
  {
    var chunks := DivCeil(total, width);
    var data := slice(0);
    assert data <= hs[0..];
    result := [];
    LevelsOfNone(h, fanout, levels);
    for i := 0 to chunks
      invariant i == chunks || i * width < total
      invariant result == Levels(h, fanout, hs[..Min(i * width, total)], levels)
    {
      var startIndex := i * width;
      var endIndex := Min(startIndex + width, total);
      var hash := HashChunk(h, fanout, hs, slice, startIndex, endIndex, data, threeLevel);
      LevelsExtend(h, fanout, hs[..startIndex], hs[startIndex..endIndex], levels - 1, i);
      assert hs[..startIndex] + hs[startIndex..endIndex] == hs[..endIndex];
      result := result + [hash];
      NextChunk(total, width, i, chunks);
    }
    assert hs[..total] == hs;
  }

  lemma {:induction false} LevelsOfNone(h: Hasher, fanout: nat, n: nat)
    requires fanout >= 1
    ensures Levels(h, fanout, [], n) == []
  {
    if n > 0 {
      LevelsOfNone(h, fanout, n - 1);
    }
  }

  /**
   The fast form. Whatever slices the provider hands out and however many levels a pass may take,
   the root is the root of the simple loop, and a specific level count yields exactly that many levels.
   */
  method ComputeMerkleRootFromSlices(h: Hasher, ghost hs: seq<Hash>, total: nat, fanout: nat,
                                     maxLevelsPerPass: Option<nat>, slice: nat -> seq<Hash>,
                                     specificLevelCount: Option<nat>)
    returns (root: Hash, intermediate: seq<Hash>)
    requires fanout >= 2 && total == |hs| && SliceProvider(slice, hs)
    requires specificLevelCount.Some? ==> specificLevelCount.value >= 1
    ensures specificLevelCount.None? ==> root == Root(h, fanout, hs) && intermediate == []
    ensures specificLevelCount.Some? ==> intermediate == Levels(h, fanout, hs, specificLevelCount.value)
    ensures specificLevelCount.Some? ==> root == if hs == [] then h([]) else DEFAULT_HASH
    decreases if specificLevelCount.Some? then specificLevelCount.value else 0
  {
    if total == 0 {
      if specificLevelCount.Some? {
        LevelsOfNone(h, fanout, specificLevelCount.value);
      }
      return h([]), [];
    }
    var (width, levels, threeLevel) :=
      CalculateThreeLevelChunks(total, fanout, maxLevelsPerPass, specificLevelCount);
    var result := HashPass(h, fanout, hs, total, slice, width, levels, threeLevel);
    LevelsLengthAtLeastOne(h, fanout, hs, levels);
    match specificLevelCount
    case Some(count) =>
      var left := count - levels;
      LevelsAdd(h, fanout, hs, levels, left);
      if left == 0 {
        root, intermediate := DEFAULT_HASH, result;
      } else {
        root, intermediate := ComputeMerkleRootFromSlices(h, result, |result|, fanout, maxLevelsPerPass,
                                                          (start: nat) => if start <= |result| then result[start..] else [],
                                                          Some(left));
      }
    case None =>
      RootFinishes(h, fanout, hs, levels - 1);
      intermediate := [];
      if |result| == 1 {
        root := result[0];
      } else {
        root := ComputeMerkleRootLoop(h, result, fanout);
      }
  }

  lemma {:induction false} LevelsLengthAtLeastOne(h: Hasher, fanout: nat, hs: seq<Hash>, n: nat)
    requires fanout >= 1 && hs != []
    ensures Levels(h, fanout, hs, n) != []
    decreases n
  {
    if n > 0 {
      LevelLength(h, fanout, hs);
      LevelsLengthAtLeastOne(h, fanout, Level(h, fanout, hs), n - 1);
    }
  }
}
