/**
 The contents of a storage file: records one after another, each at a multiple of eight. What a reader
 makes of it, also while records are being appended.
 */
module AppendLayouts {
  import opened Wrappers
  import opened Arith
  import opened Pubkeys
  import opened StoredAccounts

  /** The mapped file and the published length, at one moment. */
  datatype Snapshot = Snapshot(bytes: seq<Byte>, len: nat)

  // ---------------------------------------------------------------- reading

  datatype Slice = Slice(data: seq<Byte>, next: nat)

  datatype Loaded = Loaded(raw: Raw, offset: nat, storedSize: int, next: nat)

  /** `get_slice`: the bytes, if they have been published, and where to go on. */
  function GetSlice(s: Snapshot, offset: nat, size: nat): (r: Option<Slice>)
    requires s.len <= |s.bytes|
    ensures r.Some? ==> |r.value.data| == size
  {
    if offset + size >= U64_VALUES || offset + size > s.len then None
    else Some(Slice(s.bytes[offset..offset + size], Align(offset + size)))
  }

  /** `get_account`, where each of its four slices may be read at a later moment. */
  function ReadAccount(s1: Snapshot, s2: Snapshot, s3: Snapshot, s4: Snapshot, offset: nat): Option<Loaded>
    requires s1.len <= |s1.bytes| && s2.len <= |s2.bytes| && s3.len <= |s3.bytes| && s4.len <= |s4.bytes|
  {
    var metaSlice := GetSlice(s1, offset, STORED_META_SIZE);
    if metaSlice.None? then None else
    var accountSlice := GetSlice(s2, metaSlice.value.next, ACCOUNT_META_SIZE);
    if accountSlice.None? then None else
    var hashSlice := GetSlice(s3, accountSlice.value.next, HASH_SIZE);
    if hashSlice.None? then None else
    var dataSlice := GetSlice(s4, hashSlice.value.next, DataLen(metaSlice.value.data));
    if dataSlice.None? then None else
    var next := dataSlice.value.next;
    Some(Loaded(Raw(metaSlice.value.data, accountSlice.value.data, hashSlice.value.data, dataSlice.value.data),
                offset, next - offset, next))
  }

  // ---------------------------------------------------------------- layout

  /** A record and where it begins. */
  datatype Placed = Placed(offset: nat, raw: Raw) {

    /** Where the bytes of the record end. */
    function End(): nat {
      offset + raw.Size()
    }

    /** Where the next record begins. */
    function Next(): nat {
      offset + Align(raw.Size())
    }
  }

  function NextOffset(ps: seq<Placed>): nat {
    if ps == [] then 0 else ps[|ps| - 1].Next()
  }

  /** The number of bytes up to the end of the last record. */
  function CurrentLen(ps: seq<Placed>): nat {
    if ps == [] then 0 else ps[|ps| - 1].End()
  }

  /** The records follow each other, from the start of the file. */
  ghost predicate Chained(ps: seq<Placed>) {
    ps == [] || (Chained(ps[..|ps| - 1]) && ps[|ps| - 1].offset == NextOffset(ps[..|ps| - 1]))
  }

  lemma {:induction false} NextIsAligned(ps: seq<Placed>)
    requires Chained(ps)
    ensures Aligned(NextOffset(ps))
    decreases |ps|
  {
    if ps != [] {
      var last := ps[|ps| - 1];
      NextIsAligned(ps[..|ps| - 1]);
      AlignIsAligned(last.raw.Size());
      AlignAdd(last.offset, Align(last.raw.Size()));
    }
  }

  /** The next record begins where the aligned length ends. */
  lemma NextIsAlignedLen(ps: seq<Placed>)
    requires Chained(ps)
    ensures Align(CurrentLen(ps)) == NextOffset(ps) >= CurrentLen(ps)
  {
    if ps != [] {
      var last := ps[|ps| - 1];
      NextIsAligned(ps[..|ps| - 1]);
      AlignBound(last.raw.Size());
      AlignAdd(last.offset, last.raw.Size());
    }
  }

  /** Each record begins at a multiple of eight and ends before the next one, or the published end. */
  lemma {:induction false} PlaceOf(ps: seq<Placed>, i: nat)
    requires Chained(ps) && i < |ps|
    ensures Aligned(ps[i].offset) && ps[i].End() <= CurrentLen(ps)
    ensures i == 0 ==> ps[i].offset == 0
    ensures ps[i].Next() == if i == |ps| - 1 then NextOffset(ps) else ps[i + 1].offset
    decreases |ps|
  {
    var init, last := ps[..|ps| - 1], ps[|ps| - 1];
    NextIsAligned(init);
    if i < |ps| - 1 {
      PlaceOf(init, i);
      NextIsAlignedLen(init);
      assert ps[i] == init[i];
      assert i + 1 < |init| ==> ps[i + 1] == init[i + 1];
    }
  }

  ghost predicate RecordAt(bytes: seq<Byte>, p: Placed) {
    && p.raw.Valid() && p.End() <= |bytes|
    && bytes[p.offset..p.offset + 48] == p.raw.meta
    && bytes[p.offset + 48..p.offset + 104] == p.raw.account
    && bytes[p.offset + 104..p.offset + 136] == p.raw.hash
    && bytes[p.offset + 136..p.End()] == p.raw.data
  }

  /** The records are in the file. */
  ghost predicate Laid(s: Snapshot, ps: seq<Placed>) {
    && Chained(ps) && s.len == CurrentLen(ps) <= |s.bytes| < U64_VALUES - 8
    && forall p :: p in ps ==> RecordAt(s.bytes, p)
  }

  lemma SliceOfPrefix(bytes: seq<Byte>, bytes': seq<Byte>, len: nat, a: nat, b: nat)
    requires a <= b <= len <= |bytes| && len <= |bytes'| && bytes[..len] == bytes'[..len]
    ensures bytes[a..b] == bytes'[a..b]
  {
    assert bytes[a..b] == bytes[..len][a..b] && bytes'[a..b] == bytes'[..len][a..b];
  }

  /** Only the bytes of a record matter to it. */
  lemma RecordStays(bytes: seq<Byte>, bytes': seq<Byte>, len: nat, p: Placed)
    requires len <= |bytes| && len <= |bytes'| && bytes[..len] == bytes'[..len]
    requires RecordAt(bytes, p) && p.End() <= len
    ensures RecordAt(bytes', p)
  {
    SliceOfPrefix(bytes, bytes', len, p.offset, p.offset + 48);
    SliceOfPrefix(bytes, bytes', len, p.offset + 48, p.offset + 104);
    SliceOfPrefix(bytes, bytes', len, p.offset + 104, p.offset + 136);
    SliceOfPrefix(bytes, bytes', len, p.offset + 136, p.End());
  }

  /** What is published stays there, whatever is written behind it. */
  lemma LaidStays(s: Snapshot, ps: seq<Placed>, bytes': seq<Byte>)
    requires Laid(s, ps) && |bytes'| == |s.bytes| && bytes'[..s.len] == s.bytes[..s.len]
    ensures Laid(Snapshot(bytes', s.len), ps)
  {
    forall i | 0 <= i < |ps|
      ensures RecordAt(bytes', ps[i])
    {
      PlaceOf(ps, i);
      RecordStays(s.bytes, bytes', s.len, ps[i]);
    }
  }

  // ---------------------------------------------------------------- what a reader sees

  /** A later moment: more may have been published, and what had been is still there. */
  ghost predicate Grows(s: Snapshot, ps: seq<Placed>, s': Snapshot, ps': seq<Placed>) {
    && Laid(s, ps) && Laid(s', ps') && ps <= ps' && s.len <= s'.len
    && |s.bytes| == |s'.bytes| && s.bytes[..s.len] == s'.bytes[..s.len]
  }

  lemma SliceIsRead(s: Snapshot, offset: nat, size: nat, next: nat)
    requires offset + size <= s.len <= |s.bytes| < U64_VALUES && next == Align(offset + size)
    ensures GetSlice(s, offset, size) == Some(Slice(s.bytes[offset..offset + size], next))
  {
  }

  lemma PiecesAreAligned(offset: nat)
    requires Aligned(offset)
    ensures Aligned(offset + 48) && Aligned(offset + 104) && Aligned(offset + 136)
  {
    AlignedIsMultiple(48);
    AlignedIsMultiple(104);
    AlignedIsMultiple(136);
    AlignAdd(offset, 48);
    AlignAdd(offset, 104);
    AlignAdd(offset, 136);
  }

  /** A record that is in all four snapshots is read from them. */
  lemma RecordIsRead(s1: Snapshot, s2: Snapshot, s3: Snapshot, s4: Snapshot, p: Placed)
    requires s1.len <= |s1.bytes| && s2.len <= |s2.bytes| && s3.len <= |s3.bytes| && s4.len <= |s4.bytes| < U64_VALUES
    requires |s1.bytes| == |s2.bytes| == |s3.bytes| == |s4.bytes|
    requires RecordAt(s1.bytes, p) && RecordAt(s2.bytes, p) && RecordAt(s3.bytes, p) && RecordAt(s4.bytes, p)
    requires Aligned(p.offset) && p.End() <= s1.len <= s2.len <= s3.len <= s4.len
    ensures ReadAccount(s1, s2, s3, s4, p.offset) == Some(LoadedFrom(p))
  {
    PiecesAreAligned(p.offset);
    AlignAdd(p.offset, p.raw.Size());
    SliceIsRead(s1, p.offset, 48, p.offset + 48);
    SliceIsRead(s2, p.offset + 48, 56, p.offset + 104);
    SliceIsRead(s3, p.offset + 104, 32, p.offset + 136);
    SliceIsRead(s4, p.offset + 136, |p.raw.data|, p.Next());
  }

  /** What reading a record gives: its size counts what aligns the next one. */
  function LoadedFrom(p: Placed): Loaded {
    Loaded(p.raw, p.offset, AlignedStoredSize(|p.raw.data|), p.Next())
  }

  /** At a record that had been published when the reader got there, it reads that record. */
  lemma PublishedIsRead(s1: Snapshot, ps: seq<Placed>, s2: Snapshot, ps2: seq<Placed>, s3: Snapshot, ps3: seq<Placed>,
                        s4: Snapshot, ps4: seq<Placed>, i: nat)
    requires Grows(s1, ps, s2, ps2) && Grows(s1, ps, s3, ps3) && Grows(s1, ps, s4, ps4)
    requires s2.len <= s3.len <= s4.len && i < |ps|
    ensures ReadAccount(s1, s2, s3, s4, ps[i].offset) == Some(LoadedFrom(ps[i]))
  {
    PlaceOf(ps, i);
    RecordIsRead(s1, s2, s3, s4, ps[i]);
  }

  /** Behind what had been published when the reader got there, it finds nothing. */
  lemma NothingReadAtTheEnd(s1: Snapshot, ps: seq<Placed>, s2: Snapshot, s3: Snapshot, s4: Snapshot)
    requires Laid(s1, ps) && s2.len <= |s2.bytes| && s3.len <= |s3.bytes| && s4.len <= |s4.bytes|
    ensures ReadAccount(s1, s2, s3, s4, NextOffset(ps)) == None
  {
    NextIsAlignedLen(ps);
  }

  /** The moments at which a reader looks, and what had been published then. */
  ghost predicate Growing(moments: seq<Snapshot>, contents: seq<seq<Placed>>) {
    && |moments| == |contents|
    && forall i, j :: 0 <= i <= j < |moments| ==> Grows(moments[i], contents[i], moments[j], contents[j])
  }

  lemma GrowingRest(moments: seq<Snapshot>, contents: seq<seq<Placed>>, n: nat)
    requires Growing(moments, contents) && n <= |moments|
    ensures Growing(moments[n..], contents[n..])
  {
  }

  lemma GrowingIsLaid(moments: seq<Snapshot>, contents: seq<seq<Placed>>)
    requires Growing(moments, contents)
    ensures forall s :: s in moments ==> s.len <= |s.bytes|
  {
    forall i | 0 <= i < |moments|
      ensures moments[i].len <= |moments[i].bytes|
    {
      assert Grows(moments[i], contents[i], moments[i], contents[i]);
    }
  }

  /** The walk over all accounts, each of its reads at the next of the moments. */
  ghost function Walk(moments: seq<Snapshot>, offset: nat): seq<Placed>
    requires forall s :: s in moments ==> s.len <= |s.bytes|
    decreases |moments|
  {
    if |moments| < 4 then []
    else
      var r := ReadAccount(moments[0], moments[1], moments[2], moments[3], offset);
      if r.None? then [] else [Placed(offset, r.value.raw)] + Walk(moments[4..], r.value.next)
  }

  function OffsetAt(ps: seq<Placed>, i: nat): nat
    requires i <= |ps|
  {
    if i < |ps| then ps[i].offset else NextOffset(ps)
  }

  /** Where the reader goes next, however many records have been published since. */
  lemma NextInPrefix(ps: seq<Placed>, ps': seq<Placed>, i: nat)
    requires Chained(ps) && Chained(ps') && ps <= ps' && i < |ps|
    ensures ps[i].Next() == OffsetAt(ps', i + 1)
  {
    PlaceOf(ps', i);
  }

  lemma OneAccountOfTheWalk(moments: seq<Snapshot>, contents: seq<seq<Placed>>, i: nat)
    requires |moments| >= 4 && Growing(moments, contents) && i < |contents[0]|
    requires forall s :: s in moments ==> s.len <= |s.bytes|
    ensures Walk(moments, contents[0][i].offset) == [contents[0][i]] + Walk(moments[4..], contents[0][i].Next())
  {
    assert Grows(moments[0], contents[0], moments[1], contents[1]);
    assert Grows(moments[0], contents[0], moments[2], contents[2]);
    assert Grows(moments[0], contents[0], moments[3], contents[3]);
    assert Grows(moments[1], contents[1], moments[2], contents[2]);
    assert Grows(moments[2], contents[2], moments[3], contents[3]);
    PublishedIsRead(moments[0], contents[0], moments[1], contents[1], moments[2], contents[2], moments[3], contents[3], i);
  }

  /** What the walk from record `i` on sees: a part of what was published last, at least of what was published first. */
  ghost predicate SeenFrom(walk: seq<Placed>, i: nat, first: seq<Placed>, last: seq<Placed>, moments: nat) {
    && i <= |last| && walk <= last[i..]
    && (|walk| >= |first| - i || moments < 4 * (|walk| + 1))
  }

  lemma SeenStep(walk: seq<Placed>, i: nat, first: seq<Placed>, later: seq<Placed>, last: seq<Placed>, moments: nat)
    requires i < |first| && first <= later && first <= last && moments >= 4
    requires SeenFrom(walk, i + 1, later, last, moments - 4)
    ensures SeenFrom([first[i]] + walk, i, first, last, moments)
  {
    assert last[i..] == [last[i]] + last[i + 1..];
  }

  lemma WalkEnds(moments: seq<Snapshot>, contents: seq<seq<Placed>>)
    requires moments != [] && Growing(moments, contents)
    requires forall s :: s in moments ==> s.len <= |s.bytes|
    ensures Walk(moments, NextOffset(contents[0])) == []
  {
    if |moments| >= 4 {
      assert Grows(moments[0], contents[0], moments[0], contents[0]);
      NothingReadAtTheEnd(moments[0], contents[0], moments[1], moments[2], moments[3]);
    }
  }

  /**
   However a walk is interleaved with appends, it sees complete records, in order and without a gap: at
   least those that had been published when it began, if it has the time, and none that never was.
   */
  lemma {:induction false} WalkSeesPublishedRecords(moments: seq<Snapshot>, contents: seq<seq<Placed>>, i: nat)
    requires moments != [] && Growing(moments, contents) && i <= |contents[0]|
    ensures forall s :: s in moments ==> s.len <= |s.bytes|
    ensures SeenFrom(Walk(moments, OffsetAt(contents[0], i)), i, contents[0], contents[|contents| - 1], |moments|)
    decreases |moments|
  {
    GrowingIsLaid(moments, contents);
    var n, offset := |moments| - 1, OffsetAt(contents[0], i);
    assert Grows(moments[0], contents[0], moments[n], contents[n]);
    if i == |contents[0]| {
      WalkEnds(moments, contents);
    } else if |moments| < 4 {
      assert Walk(moments, offset) == [];
    } else {
      OneAccountOfTheWalk(moments, contents, i);
      var rest := Walk(moments[4..], contents[0][i].Next());
      if |moments| == 4 {
        assert rest == [];
        SeenStep(rest, i, contents[0], contents[0], contents[n], 4);
      } else {
        RestOfTheWalk(moments, contents, i);
        WalkSeesPublishedRecords(moments[4..], contents[4..], i + 1);
        SeenStep(rest, i, contents[0], contents[4], contents[n], |moments|);
      }
    }
  }

  lemma RestOfTheWalk(moments: seq<Snapshot>, contents: seq<seq<Placed>>, i: nat)
    requires |moments| > 4 && Growing(moments, contents) && i < |contents[0]|
    ensures Growing(moments[4..], contents[4..]) && contents[0] <= contents[4]
    ensures contents[4..][0] == contents[4] && contents[4..][|contents[4..]| - 1] == contents[|contents| - 1]
    ensures contents[0][i].Next() == OffsetAt(contents[4], i + 1)
  {
    assert Grows(moments[0], contents[0], moments[4], contents[4]);
    NextInPrefix(contents[0], contents[4], i);
    GrowingRest(moments, contents, 4);
  }

  // ---------------------------------------------------------------- histories

  lemma GrowsTransitive(s1: Snapshot, ps1: seq<Placed>, s2: Snapshot, ps2: seq<Placed>, s3: Snapshot, ps3: seq<Placed>)
    requires Grows(s1, ps1, s2, ps2) && Grows(s2, ps2, s3, ps3)
    ensures Grows(s1, ps1, s3, ps3)
  {
    SliceOfPrefix(s2.bytes, s3.bytes, s2.len, 0, s1.len);
  }

  /** The history of a file: what it looked like, and which records it had, after every single change. */
  datatype Log =
    | Start(now: Snapshot, ps: seq<Placed>)
    | Then(before: Log, now: Snapshot, ps: seq<Placed>)
  {
    function Moments(): (moments: seq<Snapshot>)
      ensures moments != []
    {
      if Start? then [now] else before.Moments() + [now]
    }

    function Contents(): (contents: seq<seq<Placed>>)
      ensures |contents| == |Moments()|
    {
      if Start? then [ps] else before.Contents() + [ps]
    }
  }

  /** Each moment of a history comes after the one before. */
  ghost predicate History(log: Log) {
    Laid(log.now, log.ps) && (log.Then? ==> History(log.before) && Grows(log.before.now, log.before.ps, log.now, log.ps))
  }

  /** The history is a continuation of an earlier one. */
  ghost predicate Extends(log: Log, earlier: Log) {
    log == earlier || (log.Then? && Extends(log.before, earlier))
  }

  lemma {:induction false} ExtendsTransitive(a: Log, b: Log, c: Log)
    requires Extends(a, b) && Extends(b, c)
    ensures Extends(a, c)
    decreases a
  {
    if a != b {
      ExtendsTransitive(a.before, b, c);
    }
  }

  lemma {:induction false} HistoryIsGrowing(log: Log)
    requires History(log)
    ensures Growing(log.Moments(), log.Contents())
    ensures log.Moments()[|log.Moments()| - 1] == log.now && log.Contents()[|log.Moments()| - 1] == log.ps
    decreases log
  {
    if log.Then? {
      HistoryIsGrowing(log.before);
      GrowingSnoc(log.before.Moments(), log.before.Contents(), log.now, log.ps);
    }
  }

  lemma GrowingSnoc(moments: seq<Snapshot>, contents: seq<seq<Placed>>, s: Snapshot, ps: seq<Placed>)
    requires moments != [] && Growing(moments, contents)
    requires Grows(moments[|moments| - 1], contents[|moments| - 1], s, ps)
    ensures Growing(moments + [s], contents + [ps])
  {
    var n, moments', contents' := |moments|, moments + [s], contents + [ps];
    forall i, j | 0 <= i <= j < |moments'|
      ensures Grows(moments'[i], contents'[i], moments'[j], contents'[j])
    {
      if j < n {
        assert Grows(moments[i], contents[i], moments[j], contents[j]);
      } else if i < n {
        assert Grows(moments[i], contents[i], moments[n - 1], contents[n - 1]);
        GrowsTransitive(moments[i], contents[i], moments[n - 1], contents[n - 1], s, ps);
      }
    }
  }

  /** The moments of a history at which a reader happens to look. */
  ghost function Select<T>(all: seq<T>, when: seq<nat>): seq<T>
    requires InTime(when, |all|)
  {
    seq(|when|, k requires 0 <= k < |when| => all[when[k]])
  }

  ghost predicate InTime(when: seq<nat>, n: nat) {
    forall i, j :: 0 <= i <= j < |when| ==> when[i] <= when[j] < n
  }

  lemma SelectionGrows(moments: seq<Snapshot>, contents: seq<seq<Placed>>, when: seq<nat>)
    requires Growing(moments, contents) && InTime(when, |moments|)
    ensures Growing(Select(moments, when), Select(contents, when))
  {
  }

  // ---------------------------------------------------------------- the walk over a file at rest

  /** `accounts`: all accounts from an offset on, in a file that does not change. */
  function AccountsFrom(s: Snapshot, offset: nat): seq<Loaded>
    requires s.len <= |s.bytes| < U64_VALUES - 8
    decreases s.len - offset
  {
    var r := ReadAccount(s, s, s, s, offset);
    if r.None? then []
    else
      ReadAdvances(s, offset);
      [r.value] + AccountsFrom(s, r.value.next)
  }

  /** Reading goes on behind the account. */
  lemma ReadAdvances(s: Snapshot, offset: nat)
    requires s.len <= |s.bytes|
    ensures var r := ReadAccount(s, s, s, s, offset);
            r.Some? ==> offset + STORE_META_OVERHEAD <= r.value.next < s.len + 8
                        && r.value.storedSize == r.value.next - offset && offset < s.len
  {
    var r := ReadAccount(s, s, s, s, offset);
    if r.Some? {
      AlignBound(offset + 48);
      AlignBound(Align(offset + 48) + 56);
      AlignBound(Align(Align(offset + 48) + 56) + 32);
      AlignBound(Align(Align(Align(offset + 48) + 56) + 32) + |r.value.raw.data|);
    }
  }

  function AllLoaded(ps: seq<Placed>): seq<Loaded> {
    seq(|ps|, i requires 0 <= i < |ps| => LoadedFrom(ps[i]))
  }

  /** Walking a file from a record on gives that record and all after it. */
  lemma {:induction false} WalkGivesAll(s: Snapshot, ps: seq<Placed>, i: nat)
    requires Laid(s, ps) && i <= |ps|
    ensures AccountsFrom(s, OffsetAt(ps, i)) == AllLoaded(ps[i..])
    decreases |ps| - i
  {
    if i == |ps| {
      NothingReadAtTheEnd(s, ps, s, s, s);
    } else {
      PublishedIsRead(s, ps, s, ps, s, ps, s, ps, i);
      NextInPrefix(ps, ps, i);
      WalkGivesAll(s, ps, i + 1);
      assert ps[i..] == [ps[i]] + ps[i + 1..];
    }
  }

  /** Where a walk over a file at rest ends. */
  function WalkEnd(s: Snapshot, offset: nat): nat
    requires s.len <= |s.bytes| < U64_VALUES - 8
    decreases s.len - offset
  {
    var r := ReadAccount(s, s, s, s, offset);
    if r.None? then offset
    else
      ReadAdvances(s, offset);
      WalkEnd(s, r.value.next)
  }

  lemma {:induction false} WalkEndsAtNext(s: Snapshot, ps: seq<Placed>, i: nat)
    requires Laid(s, ps) && i <= |ps|
    ensures WalkEnd(s, OffsetAt(ps, i)) == NextOffset(ps)
    decreases |ps| - i
  {
    if i == |ps| {
      NothingReadAtTheEnd(s, ps, s, s, s);
    } else {
      PublishedIsRead(s, ps, s, ps, s, ps, s, ps, i);
      NextInPrefix(ps, ps, i);
      WalkEndsAtNext(s, ps, i + 1);
    }
  }

  /** The bytes of an account that was read are the ones of a record there. */
  lemma ReadIsRecord(s: Snapshot, offset: nat)
    requires s.len <= |s.bytes| < U64_VALUES - 8 && Aligned(offset) && ReadAccount(s, s, s, s, offset).Some?
    ensures var r := ReadAccount(s, s, s, s, offset).value;
            r == LoadedFrom(Placed(offset, r.raw)) && RecordAt(s.bytes, Placed(offset, r.raw)) && offset + r.raw.Size() <= s.len
  {
    PiecesAreAligned(offset);
    var r := ReadAccount(s, s, s, s, offset).value;
    AlignAdd(offset, r.raw.Size());
  }

  /** These records are in the file, before the published end. */
  ghost predicate InFile(s: Snapshot, ps: seq<Placed>) {
    Chained(ps) && CurrentLen(ps) <= s.len && forall p :: p in ps ==> RecordAt(s.bytes, p)
  }

  lemma OneMoreInFile(s: Snapshot, ps: seq<Placed>)
    requires s.len <= |s.bytes| < U64_VALUES - 8 && InFile(s, ps)
    requires ReadAccount(s, s, s, s, NextOffset(ps)).Some?
    ensures var offset, r := NextOffset(ps), ReadAccount(s, s, s, s, NextOffset(ps)).value;
            var ps' := ps + [Placed(offset, r.raw)];
            && InFile(s, ps') && NextOffset(ps') == r.next > offset && r == LoadedFrom(Placed(offset, r.raw))
            && WalkEnd(s, offset) == WalkEnd(s, r.next) && AccountsFrom(s, offset) == [r] + AccountsFrom(s, r.next)
  {
    var offset := NextOffset(ps);
    NextIsAligned(ps);
    ReadIsRecord(s, offset);
    ReadAdvances(s, offset);
    var ps' := ps + [Placed(offset, ReadAccount(s, s, s, s, offset).value.raw)];
    assert ps'[..|ps|] == ps;
  }

  lemma AllLoadedCons(p: Placed, ps: seq<Placed>)
    ensures AllLoaded([p] + ps) == [LoadedFrom(p)] + AllLoaded(ps)
  {
  }

  /** Whatever is in the file, a walk finds records that follow each other. */
  lemma {:induction false} WalkFindsRecords(s: Snapshot, before: seq<Placed>) returns (found: seq<Placed>)
    requires s.len <= |s.bytes| < U64_VALUES - 8 && InFile(s, before)
    ensures InFile(s, before + found)
    ensures WalkEnd(s, NextOffset(before)) == NextOffset(before + found)
    ensures AccountsFrom(s, NextOffset(before)) == AllLoaded(found)
    decreases s.len + 8 - NextOffset(before)
  {
    var offset := NextOffset(before);
    var r := ReadAccount(s, s, s, s, offset);
    if r.None? {
      found := [];
      assert before + found == before;
    } else {
      OneMoreInFile(s, before);
      ReadAdvances(s, offset);
      var p := Placed(offset, r.value.raw);
      var rest := WalkFindsRecords(s, before + [p]);
      found := [p] + rest;
      assert before + found == before + [p] + rest;
      AllLoadedCons(p, rest);
    }
  }
}
