/**
 `CumulativeOffsets` and the hash files: many pieces read as one flat list, without flattening them.
 */
module Offsets {
  import opened Wrappers
  import opened BinarySearch
  import opened Merkle

  /** The flat list the pieces stand for. */
  function Flatten<T>(raw: seq<seq<T>>): seq<T> {
    if raw == [] then [] else Flatten(raw[..|raw| - 1]) + raw[|raw| - 1]
  }

  datatype CumulativeOffset = CumulativeOffset(index: nat, startOffset: nat)

  datatype CumulativeOffsets = CumulativeOffsets(offsets: seq<CumulativeOffset>, totalCount: nat)

  /** Where the piece after `o` starts. */
  ghost function EndOf<T>(raw: seq<seq<T>>, o: CumulativeOffset): nat {
    o.startOffset + if o.index < |raw| then |raw[o.index]| else 0
  }

  /** `o` names a non-empty piece and its position in the flat list. */
  ghost predicate Listed<T>(o: CumulativeOffset, raw: seq<seq<T>>) {
    o.index < |raw| && raw[o.index] != [] && o.startOffset == |Flatten(raw[..o.index])|
  }

  /** Each listed piece is followed directly by the next one, and they cover the flat list. */
  ghost predicate Covers<T>(os: seq<CumulativeOffset>, raw: seq<seq<T>>, total: nat) {
    && (forall k :: 0 <= k < |os| - 1 ==> EndOf(raw, os[k]) == os[k + 1].startOffset)
    && (os != [] ==> os[0].startOffset == 0 && EndOf(raw, os[|os| - 1]) == total)
    && (os == [] ==> total == 0)
  }

  /** The offsets list the non-empty pieces of `raw` in order, each with its position in the flat list. */
  ghost predicate Describes<T>(c: CumulativeOffsets, raw: seq<seq<T>>) {
    && c.totalCount == |Flatten(raw)|
    && (forall k :: 0 <= k < |c.offsets| ==> Listed(c.offsets[k], raw))
    && (forall j, k :: 0 <= j < k < |c.offsets| ==> c.offsets[j].index < c.offsets[k].index)
    && Covers(c.offsets, raw, c.totalCount)
  }

  lemma FlattenSnoc<T>(raw: seq<seq<T>>, i: nat)
    requires i < |raw|
    ensures Flatten(raw[..i + 1]) == Flatten(raw[..i]) + raw[i]
  {
    assert raw[..i + 1][..i] == raw[..i];
  }

  lemma {:induction false} FlattenAppend<T>(x: seq<seq<T>>, y: seq<seq<T>>)
    ensures Flatten(x + y) == Flatten(x) + Flatten(y)
    decreases |y|
  {
    if y == [] {
      assert x + y == x;
    } else {
      var y' := y[..|y| - 1];
      FlattenAppend(x, y');
      assert (x + y)[..|x + y| - 1] == x + y';
    }
  }

  lemma FlattenOne<T>(x: seq<T>)
    ensures Flatten([x]) == x
  {
    var none: seq<seq<T>> := [];
    assert [x][..0] == none;
  }

  lemma {:induction false} FlattenMonotone<T>(raw: seq<seq<T>>, i: nat, j: nat)
    requires i <= j <= |raw|
    ensures |Flatten(raw[..i])| <= |Flatten(raw[..j])|
    decreases j
  {
    if i < j {
      FlattenSnoc(raw, j - 1);
      FlattenMonotone(raw, i, j - 1);
    }
  }

  /** A piece sits in the flat list at its offset. */
  lemma {:induction false} FlattenPiece<T>(raw: seq<seq<T>>, i: nat)
    requires i < |raw|
    ensures |Flatten(raw[..i])| + |raw[i]| <= |Flatten(raw)|
    ensures Flatten(raw)[|Flatten(raw[..i])|..][..|raw[i]|] == raw[i]
    decreases |raw|
  {
    var last := |raw| - 1;
    if i < last {
      FlattenPiece(raw[..last], i);
      assert raw[..last][..i] == raw[..i];
    }
  }

  /** What one more piece adds to the list. */
  function AddPiece(c: CumulativeOffsets, index: nat, length: nat): CumulativeOffsets {
    if length > 0 then
      CumulativeOffsets(c.offsets + [CumulativeOffset(index, c.totalCount)], c.totalCount + length)
    else c
  }

  lemma ListedGrows<T>(o: CumulativeOffset, raw: seq<seq<T>>, piece: seq<T>)
    requires Listed(o, raw)
    ensures Listed(o, raw + [piece]) && EndOf(raw + [piece], o) == EndOf(raw, o)
  {
    assert (raw + [piece])[..o.index] == raw[..o.index];
  }

  lemma DescribesSnoc<T>(c: CumulativeOffsets, raw: seq<seq<T>>, piece: seq<T>)
    requires Describes(c, raw)
    ensures Describes(AddPiece(c, |raw|, |piece|), raw + [piece])
  {
    var raw' := raw + [piece];
    assert raw'[..|raw|] == raw;
    assert Flatten(raw') == Flatten(raw) + piece;
    forall k | 0 <= k < |c.offsets|
      ensures Listed(c.offsets[k], raw') && EndOf(raw', c.offsets[k]) == EndOf(raw, c.offsets[k])
    {
      ListedGrows(c.offsets[k], raw, piece);
    }
    if piece != [] {
      assert Listed(CumulativeOffset(|raw|, c.totalCount), raw');
    }
  }

  lemma DescribesNext<T>(c: CumulativeOffsets, raw: seq<seq<T>>, i: nat)
    requires i < |raw| && Describes(c, raw[..i])
    ensures Describes(AddPiece(c, i, |raw[i]|), raw[..i + 1])
  {
    assert raw[..i + 1] == raw[..i] + [raw[i]];
    DescribesSnoc(c, raw[..i], raw[i]);
  }

  lemma DescribesNothing<T>(raw: seq<seq<T>>)
    ensures Describes(CumulativeOffsets([], 0), raw[..0])
  {
    assert raw[..0] == [];
  }

  lemma DescribesAll<T>(c: CumulativeOffsets, raw: seq<seq<T>>, n: nat)
    requires n == |raw| && Describes(c, raw[..n])
    ensures Describes(c, raw)
  {
    assert raw[..n] == raw;
  }

  /** `CumulativeOffsets::new`: one pass over the lengths of the pieces, skipping empty ones. */
  method NewCumulativeOffsets<T>(raw: seq<seq<T>>) returns (c: CumulativeOffsets)
    ensures Describes(c, raw)
  {
    c := CumulativeOffsets([], 0);
    DescribesNothing(raw);
    for i := 0 to |raw|
      invariant Describes(c, raw[..i])
    {
      DescribesNext(c, raw, i);
      c := AddPiece(c, i, |raw[i]|);
    }
    DescribesAll(c, raw, |raw|);
  }

  /** How the start of every listed piece compares with position `start`. */
  function Comparisons(c: CumulativeOffsets, start: nat): (cmp: seq<Ordering>) {
    seq(|c.offsets|, i requires 0 <= i < |c.offsets| => Compare(c.offsets[i].startOffset, start))
  }

  lemma ComparisonsSorted<T>(c: CumulativeOffsets, raw: seq<seq<T>>, start: nat)
    requires Describes(c, raw)
    ensures Sorted(Comparisons(c, start))
  {
    var os := c.offsets;
    forall j, k | 0 <= j < k < |os|
      ensures os[j].startOffset <= os[k].startOffset
    {
      assert Listed(os[j], raw) && Listed(os[k], raw);
      FlattenMonotone(raw, os[j].index, os[k].index);
    }
  }

  lemma SearchHitsPiece<T>(c: CumulativeOffsets, raw: seq<seq<T>>, start: nat, r: SearchResult)
    requires Describes(c, raw) && start < c.totalCount && Finds(Comparisons(c, start), r)
    ensures r.Err? ==> r.index > 0
    ensures var k := if r.Ok? then r.index else r.index - 1;
            k < |c.offsets| && c.offsets[k].startOffset <= start < EndOf(raw, c.offsets[k])
  {
    var cmp := Comparisons(c, start);
    assert !cmp[0].Greater?;
    if r.Err? {
      assert r.index > 0;
      assert cmp[r.index - 1].Less?;
      assert r.index < |cmp| ==> cmp[r.index].Greater?;
    } else {
      assert cmp[r.index].Equal?;
    }
  }

  /** `find_index`: the piece that holds position `start` of the flat list. */
  function FindIndex<T>(c: CumulativeOffsets, ghost raw: seq<seq<T>>, start: nat): (k: nat)
    requires Describes(c, raw) && start < c.totalCount
    ensures k < |c.offsets|
    ensures c.offsets[k].startOffset <= start < EndOf(raw, c.offsets[k])
  {
    ComparisonsSorted(c, raw, start);
    var r := BinarySearchBy(Comparisons(c, start));
    SearchHitsPiece(c, raw, start, r);
    match r
    case Ok(index) => index
    case Err(index) => index - 1
  }

  /** `get_slice`: the longest slice of one piece that starts at position `start` of the flat list. */
  function GetSlice<T>(c: CumulativeOffsets, raw: seq<seq<T>>, start: nat): (r: seq<T>)
    requires Describes(c, raw) && start < c.totalCount
    ensures r != [] && r <= Flatten(raw)[start..]
  {
    var o := c.offsets[FindIndex(c, raw, start)];
    FlattenPiece(raw, o.index);
    var r := raw[o.index][start - o.startOffset..];
    assert r == Flatten(raw)[o.startOffset..][..|raw[o.index]|][start - o.startOffset..];
    assert r == Flatten(raw)[start..][..|r|];
    r
  }

  // ---------------------------------------------------------------- hash files

  /** What a bin wrote: no file at all when it had no hash to write. */
  type HashFile = Option<seq<Hash>>

  function Contents(file: HashFile): seq<Hash> {
    match file case None => [] case Some(hashes) => hashes
  }

  /** The contents of the files, one after the other. */
  ghost function AllContents(files: seq<HashFile>): seq<Hash> {
    Flatten(seq(|files|, i requires 0 <= i < |files| => Contents(files[i])))
  }

  /** The files that hashes were written to; the others have no reader. */
  ghost function ReadersOf(files: seq<HashFile>): seq<seq<Hash>> {
    if files == [] then []
    else
      var last := files[|files| - 1];
      ReadersOf(files[..|files| - 1]) + if last.Some? then [last.value] else []
  }

  /** `from_files`: the readers of the files that exist, in order. */
  method FromFiles(files: seq<HashFile>) returns (readers: seq<seq<Hash>>, c: CumulativeOffsets)
    ensures readers == ReadersOf(files) && Describes(c, readers) && Flatten(readers) == AllContents(files)
  {
    ghost var all := seq(|files|, i requires 0 <= i < |files| => Contents(files[i]));
    readers := [];
    for i := 0 to |files|
      invariant readers == ReadersOf(files[..i]) && Flatten(readers) == Flatten(all[..i])
    {
      assert files[..i + 1][..i] == files[..i];
      FlattenSnoc(all, i);
      if files[i].Some? {
        assert (readers + [files[i].value])[..|readers|] == readers;
        readers := readers + [files[i].value];
      }
    }
    assert all[..|files|] == all && files[..|files|] == files;
    c := NewCumulativeOffsets(readers);
  }

  /** The closure handed to the Merkle computation over the files. */
  function SliceOf(readers: seq<seq<Hash>>, c: CumulativeOffsets): nat -> seq<Hash>
    requires Describes(c, readers)
  {
    (start: nat) => if start < c.totalCount then GetSlice(c, readers, start) else []
  }

  lemma SliceOfProvides(readers: seq<seq<Hash>>, c: CumulativeOffsets)
    requires Describes(c, readers)
    ensures SliceProvider(SliceOf(readers, c), Flatten(readers))
  {
    var slice := SliceOf(readers, c);
    forall i: nat | i < |Flatten(readers)|
      ensures slice(i) != [] && slice(i) <= Flatten(readers)[i..]
    {
      assert slice(i) == GetSlice(c, readers, i);
    }
  }

  /** `calculate_hash`: hashes given in pieces have the root of the flat list. */
  method CalculateHash(h: Hasher, hashes: seq<seq<Hash>>) returns (root: Hash, total: nat)
    ensures root == Root(h, MERKLE_FANOUT, Flatten(hashes)) && total == |Flatten(hashes)|
  {
    var c := NewCumulativeOffsets(hashes);
    total := c.totalCount;
    SliceOfProvides(hashes, c);
    var intermediate;
    root, intermediate :=
      ComputeMerkleRootFromSlices(h, Flatten(hashes), total, MERKLE_FANOUT, None, SliceOf(hashes, c), None);
  }
}
