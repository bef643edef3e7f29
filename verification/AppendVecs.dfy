/**
 A storage file that accounts are appended to. The ghost field `log` is its history: what the file
 looked like after every single copy and every publication, and which records it had then.
 */
module AppendVecs {
  import opened Wrappers
  import opened Arith
  import opened Pubkeys
  import AccountInfos
  import opened StoredAccounts
  import opened AppendLayouts

  const MAXIMUM_APPEND_VEC_FILE_SIZE: nat := 16 * 1024 * 1024 * 1024

  datatype SizeError = FileSizeTooSmall | FileSizeTooLarge | OffsetOutOfBounds

  /** `sanitize_len_and_size`: none, or what is wrong. */
  function SanitizeLenAndSize(currentLen: nat, fileSize: nat): (error: Option<SizeError>)
    ensures error.None? <==> 0 < fileSize <= MAXIMUM_APPEND_VEC_FILE_SIZE && currentLen <= fileSize
    ensures error == Some(FileSizeTooSmall) <==> fileSize == 0
    ensures error == Some(FileSizeTooLarge) <==> fileSize > 0x4_0000_0000
  {
    if fileSize == 0 then Some(FileSizeTooSmall)
    else if fileSize > MAXIMUM_APPEND_VEC_FILE_SIZE then Some(FileSizeTooLarge)
    else if currentLen > fileSize then Some(OffsetOutOfBounds)
    else None
  }

  // ---------------------------------------------------------------- what is written

  datatype Account = Account(lamports: U64, rentEpoch: U64, owner: seq<Byte>, executable: bool, data: seq<Byte>)

  /** An account to store; `padding` is what happens to be in memory behind its fields. */
  datatype Storable = Storable(account: Account, pubkey: seq<Byte>, hash: seq<Byte>, writeVersion: U64, padding: seq<Byte>) {
    predicate Valid() {
      && |account.owner| == KEY_SIZE && |pubkey| == KEY_SIZE && |hash| == HASH_SIZE && |padding| == PADDING_SIZE
      && |account.data| < U64_VALUES
    }
  }

  /** The default key is all zeros. */
  function Zeros(n: nat): (s: seq<Byte>)
    ensures |s| == n
  {
    if n == 0 then [] else Zeros(n - 1) + [0]
  }

  /** The record for an account: without lamports, nothing of the account is stored. */
  function RecordOf(item: Storable): Record
    requires item.Valid()
  {
    var a := if item.account.lamports == 0 then Account(0, 0, Zeros(KEY_SIZE), false, []) else item.account;
    Record(StoredMeta(item.writeVersion, |a.data|, item.pubkey),
           AccountMeta(a.lamports, a.rentEpoch, a.owner, if a.executable then 1 else 0), item.hash, a.data)
  }

  function RawOf(item: Storable): Raw
    requires item.Valid()
  {
    Encode(RecordOf(item), item.padding)
  }

  /** The record holds the account: all of it, or that there is none if it has no lamports. */
  ghost predicate StoresItem(r: Record, item: Storable) {
    && r.meta.pubkey == item.pubkey && r.meta.writeVersion == item.writeVersion && r.hash == item.hash
    && r.meta.dataLen == |r.data| && r.account.lamports == item.account.lamports
    && if item.account.lamports > 0 then
         && r.account.rentEpoch == item.account.rentEpoch && r.account.owner == item.account.owner
         && r.account.executable == (if item.account.executable then 1 else 0) && r.data == item.account.data
       else
         && r.account.rentEpoch == 0 && r.account.executable == 0 && r.data == []
         && |r.account.owner| == KEY_SIZE && forall k :: 0 <= k < KEY_SIZE ==> r.account.owner[k] == 0
  }

  lemma {:induction false} ZerosAreZero(n: nat)
    ensures forall k :: 0 <= k < n ==> Zeros(n)[k] == 0
  {
    if n > 0 {
      ZerosAreZero(n - 1);
    }
  }

  lemma RecordStoresItem(item: Storable)
    requires item.Valid()
    ensures StoresItem(RecordOf(item), item)
  {
    ZerosAreZero(KEY_SIZE);
  }

  lemma RawOfRoundTrip(item: Storable)
    requires item.Valid()
    ensures RawOf(item).Valid() && Decode(RawOf(item)) == RecordOf(item)
  {
    RecordRoundTrip(RecordOf(item), item.padding);
  }

  /** `sanitize`: the executable flag is a bool, and an account without lamports is the default one. */
  predicate Sane(raw: Raw)
    requires |raw.account| == ACCOUNT_META_SIZE
  {
    var a := DecodeAccount(raw.account);
    && a.executable <= 1
    && (a.lamports != 0 || (a.rentEpoch == 0 && a.owner == Zeros(KEY_SIZE) && a.executable == 0 && raw.data == []))
  }

  /** A record is sane exactly if storing some account gives what it says. */
  lemma SaneExactly(raw: Raw)
    requires raw.Valid()
    ensures Sane(raw) <==> exists item: Storable :: item.Valid() && StoresItem(Decode(raw), item)
  {
    var r := Decode(raw);
    ZerosAreZero(KEY_SIZE);
    if Sane(raw) {
      var account := Account(r.account.lamports, r.account.rentEpoch, r.account.owner, r.account.executable == 1, r.data);
      var item := Storable(account, r.meta.pubkey, r.hash, r.meta.writeVersion, Zeros(PADDING_SIZE));
      assert item.Valid() && StoresItem(r, item);
    }
    if item: Storable :| item.Valid() && StoresItem(r, item) {
      assert r.account.lamports == 0 ==> r.account.owner == Zeros(KEY_SIZE);
    }
  }

  lemma WrittenIsSane(item: Storable)
    requires item.Valid()
    ensures RawOf(item).Valid() && Sane(RawOf(item))
  {
    RawOfRoundTrip(item);
    assert Decode(RawOf(item)).account == RecordOf(item).account;
  }

  // ---------------------------------------------------------------- writing bytes

  /** The bytes after a copy to `pos`. */
  function Spliced(bytes: seq<Byte>, pos: nat, src: seq<Byte>): seq<Byte>
    requires pos + |src| <= |bytes|
  {
    bytes[..pos] + src + bytes[pos + |src|..]
  }

  /** Where the values end if each is copied to the next multiple of eight. */
  function EndOf(offset: nat, vals: seq<seq<Byte>>): nat {
    if vals == [] then offset else Align(EndOf(offset, vals[..|vals| - 1])) + |vals[|vals| - 1]|
  }

  lemma {:induction false} EndGrows(offset: nat, vals: seq<seq<Byte>>, i: nat)
    requires i <= |vals|
    ensures offset <= EndOf(offset, vals[..i]) <= EndOf(offset, vals)
    ensures i < |vals| ==> Align(EndOf(offset, vals[..i])) + |vals[i]| <= EndOf(offset, vals)
    decreases |vals|
  {
    if i == |vals| {
      assert vals[..i] == vals;
      if vals != [] {
        EndGrows(offset, vals[..|vals| - 1], |vals| - 1);
        AlignBound(EndOf(offset, vals[..|vals| - 1]));
      }
    } else {
      var init := vals[..|vals| - 1];
      EndGrows(offset, init, i);
      assert init[..i] == vals[..i];
      AlignBound(EndOf(offset, init));
    }
  }

  /** The bytes after all copies. */
  function WriteAll(bytes: seq<Byte>, offset: nat, vals: seq<seq<Byte>>): (r: seq<Byte>)
    requires EndOf(offset, vals) <= |bytes|
    ensures |r| == |bytes|
  {
    if vals == [] then bytes
    else
      EndGrows(offset, vals, |vals| - 1);
      Spliced(WriteAll(bytes, offset, vals[..|vals| - 1]), Align(EndOf(offset, vals[..|vals| - 1])), vals[|vals| - 1])
  }

  lemma {:induction false} WriteKeepsPrefix(bytes: seq<Byte>, offset: nat, vals: seq<seq<Byte>>, len: nat)
    requires EndOf(offset, vals) <= |bytes| && len <= offset
    ensures len <= |bytes| && WriteAll(bytes, offset, vals)[..len] == bytes[..len]
    decreases |vals|
  {
    EndGrows(offset, vals, 0);
    if vals != [] {
      var init, val := vals[..|vals| - 1], vals[|vals| - 1];
      var end := EndOf(offset, init);
      EndGrows(offset, vals, |vals| - 1);
      EndGrows(offset, init, 0);
      WriteKeepsPrefix(bytes, offset, init, len);
      AlignBound(end);
      SpliceKeepsPrefix(WriteAll(bytes, offset, init), Align(end), val, len);
    }
  }

  lemma SpliceKeepsPrefix(bytes: seq<Byte>, pos: nat, src: seq<Byte>, len: nat)
    requires len <= pos && pos + |src| <= |bytes|
    ensures Spliced(bytes, pos, src)[..len] == bytes[..len]
  {
  }

  /** One more value. */
  lemma WriteSnoc(bytes: seq<Byte>, offset: nat, vals: seq<seq<Byte>>, val: seq<Byte>, end: nat)
    requires EndOf(offset, vals) == end <= |bytes|
    ensures EndOf(offset, vals + [val]) == Align(end) + |val|
    ensures Align(end) + |val| <= |bytes| ==>
              WriteAll(bytes, offset, vals + [val]) == Spliced(WriteAll(bytes, offset, vals), Align(end), val)
  {
    assert (vals + [val])[..|vals|] == vals;
  }

  lemma NextCopy(bytes: seq<Byte>, start: nat, vals: seq<seq<Byte>>, i: nat, offset: nat)
    requires EndOf(start, vals) <= |bytes| && i < |vals| && offset == EndOf(start, vals[..i])
    ensures start <= offset <= |bytes| && Align(offset) + |vals[i]| <= |bytes|
    ensures EndOf(start, vals[..i + 1]) == Align(offset) + |vals[i]|
    ensures WriteAll(bytes, start, vals[..i + 1]) == Spliced(WriteAll(bytes, start, vals[..i]), Align(offset), vals[i])
  {
    EndGrows(start, vals, i);
    assert vals[..i + 1] == vals[..i] + [vals[i]];
    WriteSnoc(bytes, start, vals[..i], vals[i], offset);
  }

  /** The four values that are copied for a record. */
  function Vals(raw: Raw): seq<seq<Byte>> {
    [raw.meta] + [raw.account] + [raw.hash] + [raw.data]
  }

  lemma SplicedAt(bytes: seq<Byte>, pos: nat, src: seq<Byte>)
    requires pos + |src| <= |bytes|
    ensures |Spliced(bytes, pos, src)| == |bytes|
    ensures Spliced(bytes, pos, src)[..pos] == bytes[..pos] && Spliced(bytes, pos, src)[pos..pos + |src|] == src
  {
  }

  /** Where the four values end. */
  lemma ValsEnd(offset: nat, raw: Raw, pos: nat, one: seq<seq<Byte>>, two: seq<seq<Byte>>, three: seq<seq<Byte>>)
    requires raw.Valid() && pos == Align(offset)
    requires one == [raw.meta] && two == one + [raw.account] && three == two + [raw.hash]
    ensures EndOf(offset, one) == pos + 48 && EndOf(offset, two) == pos + 104 && EndOf(offset, three) == pos + 136
    ensures Aligned(pos + 48) && Aligned(pos + 104) && Aligned(pos + 136) && offset <= pos
    ensures EndOf(offset, Vals(raw)) == pos + raw.Size()
  {
    AlignBound(offset);
    AlignIsAligned(offset);
    PiecesAreAligned(pos);
    EndSnoc(offset, [], raw.meta, offset);
    EndSnoc(offset, one, raw.account, pos + 48);
    EndSnoc(offset, two, raw.hash, pos + 104);
    EndSnoc(offset, three, raw.data, pos + 136);
  }

  /** The bytes of the copies, one by one. */
  lemma WriteAllVals(bytes: seq<Byte>, offset: nat, raw: Raw, pos: nat, b1: seq<Byte>, b2: seq<Byte>, b3: seq<Byte>)
    requires raw.Valid() && pos == Align(offset) && pos + raw.Size() <= |bytes|
    requires b1 == Spliced(bytes, pos, raw.meta) && |b1| == |bytes|
    requires b2 == Spliced(b1, pos + 48, raw.account) && |b2| == |bytes|
    requires b3 == Spliced(b2, pos + 104, raw.hash) && |b3| == |bytes|
    ensures EndOf(offset, Vals(raw)) == pos + raw.Size()
    ensures WriteAll(bytes, offset, Vals(raw)) == Spliced(b3, pos + 136, raw.data)
  {
    var none: seq<seq<Byte>> := [];
    var one := [raw.meta];
    var two := one + [raw.account];
    var three := two + [raw.hash];
    ValsEnd(offset, raw, pos, one, two, three);
    assert none + [raw.meta] == one;
    WriteSnoc(bytes, offset, none, raw.meta, offset);
    WriteSnoc(bytes, offset, one, raw.account, pos + 48);
    WriteSnoc(bytes, offset, two, raw.hash, pos + 104);
    WriteSnoc(bytes, offset, three, raw.data, pos + 136);
  }

  lemma EndOfVals(offset: nat, raw: Raw)
    requires raw.Valid()
    ensures EndOf(offset, Vals(raw)) == Align(offset) + raw.Size()
  {
    var one := [raw.meta];
    ValsEnd(offset, raw, Align(offset), one, one + [raw.account], one + [raw.account] + [raw.hash]);
  }

  lemma EndSnoc(offset: nat, vals: seq<seq<Byte>>, val: seq<Byte>, end: nat)
    requires EndOf(offset, vals) == end
    ensures EndOf(offset, vals + [val]) == Align(end) + |val|
    ensures vals == [] ==> EndOf(offset, [val]) == Align(end) + |val|
  {
    assert (vals + [val])[..|vals|] == vals;
    assert vals == [] ==> vals + [val] == [val];
  }

  /** Copying the four values puts the record there. */
  lemma RecordIsWritten(bytes: seq<Byte>, offset: nat, raw: Raw)
    requires raw.Valid() && Align(offset) + raw.Size() <= |bytes|
    ensures EndOf(offset, Vals(raw)) == Align(offset) + raw.Size()
    ensures RecordAt(WriteAll(bytes, offset, Vals(raw)), Placed(Align(offset), raw))
  {
    var pos := Align(offset);
    var b1 := Spliced(bytes, pos, raw.meta);
    SplicedAt(bytes, pos, raw.meta);
    var b2 := Spliced(b1, pos + 48, raw.account);
    SplicedAt(b1, pos + 48, raw.account);
    var b3 := Spliced(b2, pos + 104, raw.hash);
    SplicedAt(b2, pos + 104, raw.hash);
    var b4 := Spliced(b3, pos + 136, raw.data);
    SplicedAt(b3, pos + 136, raw.data);
    SliceOfPrefix(b2, b1, pos + 48, pos, pos + 48);
    SliceOfPrefix(b3, b2, pos + 104, pos, pos + 48);
    SliceOfPrefix(b3, b2, pos + 104, pos + 48, pos + 104);
    SliceOfPrefix(b4, b3, pos + 136, pos, pos + 48);
    SliceOfPrefix(b4, b3, pos + 136, pos + 48, pos + 104);
    SliceOfPrefix(b4, b3, pos + 136, pos + 104, pos + 136);
    WriteAllVals(bytes, offset, raw, pos, b1, b2, b3);
  }

  // ---------------------------------------------------------------- batches

  /** The next record, if it fits. */
  predicate Fits(ps: seq<Placed>, raw: Raw, size: nat) {
    NextOffset(ps) + raw.Size() <= size
  }

  /** The records of the file after appending until one does not fit. */
  function Appended(ps: seq<Placed>, raws: seq<Raw>, size: nat): seq<Placed>
    decreases |raws|
  {
    if raws == [] || !Fits(ps, raws[0], size) then ps
    else Appended(ps + [Placed(NextOffset(ps), raws[0])], raws[1..], size)
  }

  /** The number of records that fit. */
  function FitCount(ps: seq<Placed>, raws: seq<Raw>, size: nat): (n: nat)
    ensures n <= |raws|
    decreases |raws|
  {
    if raws == [] || !Fits(ps, raws[0], size) then 0
    else 1 + FitCount(ps + [Placed(NextOffset(ps), raws[0])], raws[1..], size)
  }

  /** What is appended is the first of the records, as many as fit: the one after them does not. */
  /** A record fits exactly if it does not end beyond the file when it begins at the next multiple of eight. */
  lemma FitsExactly(ps: seq<Placed>, raw: Raw, size: nat)
    requires Chained(ps)
    ensures Fits(ps, raw, size) <==> (CurrentLen(ps) + 7) / 8 * 8 + 136 + |raw.data| <= size
  {
    NextIsAlignedLen(ps);
    AlignIsMask(CurrentLen(ps));
  }

  lemma {:induction false} AppendedIsWhatFits(ps: seq<Placed>, raws: seq<Raw>, size: nat)
    ensures var all, n := Appended(ps, raws, size), FitCount(ps, raws, size);
            && |all| == |ps| + n && ps <= all && (forall i :: 0 <= i < n ==> all[|ps| + i].raw == raws[i])
            && (n < |raws| ==> !Fits(all, raws[n], size))
    decreases |raws|
  {
    if raws != [] && Fits(ps, raws[0], size) {
      var more := ps + [Placed(NextOffset(ps), raws[0])];
      AppendedIsWhatFits(more, raws[1..], size);
      var all, n := Appended(ps, raws, size), FitCount(ps, raws, size);
      forall i | 0 <= i < n
        ensures all[|ps| + i].raw == raws[i]
      {
        if i == 0 {
          assert all[|ps|] == more[|ps|];
        } else {
          assert all[|more| + (i - 1)].raw == raws[1..][i - 1];
        }
      }
    }
  }

  predicate AllValid(items: seq<Storable>) {
    items == [] || (items[0].Valid() && AllValid(items[1..]))
  }

  function RawsOf(items: seq<Storable>): (raws: seq<Raw>)
    requires AllValid(items)
    ensures |raws| == |items|
  {
    if items == [] then [] else [RawOf(items[0])] + RawsOf(items[1..])
  }

  lemma AppendedStep(ps: seq<Placed>, items: seq<Storable>, size: nat)
    requires items != [] && AllValid(items)
    ensures var raw := RawOf(items[0]);
            Appended(ps, RawsOf(items), size) ==
              if Fits(ps, raw, size) then Appended(ps + [Placed(NextOffset(ps), raw)], RawsOf(items[1..]), size) else ps
  {
    assert RawsOf(items)[1..] == RawsOf(items[1..]);
  }

  datatype StoredAccountInfo = StoredAccountInfo(offset: nat, size: int)

  /** What is returned for records: where they are, and their size with what aligns the next one. */
  function InfosOf(ps: seq<Placed>): seq<StoredAccountInfo> {
    if ps == [] then []
    else
      var p := ps[|ps| - 1];
      InfosOf(ps[..|ps| - 1]) + [StoredAccountInfo(p.offset, AlignedStoredSize(|p.raw.data|))]
  }

  function OffsetsOf(ps: seq<Placed>): (offsets: seq<nat>)
    ensures |offsets| == |ps|
  {
    if ps == [] then [] else OffsetsOf(ps[..|ps| - 1]) + [ps[|ps| - 1].offset]
  }

  lemma OffsetsOfSnoc(ps: seq<Placed>, p: Placed)
    ensures OffsetsOf(ps + [p]) == OffsetsOf(ps) + [p.offset]
  {
    assert (ps + [p])[..|ps|] == ps;
  }

  lemma {:induction false} OffsetsOfAt(ps: seq<Placed>, i: nat)
    requires i < |ps|
    ensures OffsetsOf(ps)[i] == ps[i].offset
    decreases |ps|
  {
    if i < |ps| - 1 {
      OffsetsOfAt(ps[..|ps| - 1], i);
    }
  }

  /** The distances between the offsets are the sizes. */
  lemma OffsetsGiveSizes(before: seq<Placed>, added: seq<Placed>, i: nat)
    requires Chained(before + added) && i < |added|
    ensures var offsets := OffsetsOf(added) + [NextOffset(before + added)];
            offsets[i] == added[i].offset && offsets[i + 1] == offsets[i] + AlignedStoredSize(|added[i].raw.data|)
  {
    var ps := before + added;
    PlaceOf(ps, |before| + i);
    assert ps[|before| + i] == added[i];
    OffsetsOfAt(added, i);
    if i + 1 < |added| {
      OffsetsOfAt(added, i + 1);
      assert ps[|before| + i + 1] == added[i + 1];
    }
  }

  lemma {:induction false} InfosOfAt(ps: seq<Placed>, i: nat)
    requires i < |ps|
    ensures |InfosOf(ps)| == |ps|
    ensures InfosOf(ps)[i] == StoredAccountInfo(ps[i].offset, AlignedStoredSize(|ps[i].raw.data|))
    decreases |ps|
  {
    if i < |ps| - 1 {
      InfosOfAt(ps[..|ps| - 1], i);
    } else if i > 0 {
      InfosOfAt(ps[..|ps| - 1], 0);
    }
  }

  /** What is returned is where each record begins, and that each reaches to the next one, the last to where one would begin. */
  lemma InfosReachToTheNext(before: seq<Placed>, added: seq<Placed>, i: nat)
    requires Chained(before + added) && i < |added|
    ensures |InfosOf(added)| == |added| && InfosOf(added)[i].offset == added[i].offset
    ensures InfosOf(added)[i].offset + InfosOf(added)[i].size ==
              if i + 1 < |added| then added[i + 1].offset else (CurrentLen(before + added) + 7) / 8 * 8
  {
    InfosOfAt(added, i);
    OffsetsGiveSizes(before, added, i);
    NextIsAlignedLen(before + added);
    AlignIsMask(CurrentLen(before + added));
    if i + 1 < |added| {
      OffsetsOfAt(added, i + 1);
    }
  }

  /** The infos, from the windows of the offsets. */
  method InfosFromOffsets(offsets: seq<nat>, ghost before: seq<Placed>, ghost added: seq<Placed>)
    returns (infos: seq<StoredAccountInfo>)
    requires Chained(before + added) && offsets == OffsetsOf(added) + [NextOffset(before + added)]
    ensures infos == InfosOf(added)
  {
    infos := [];
    for i := 0 to |offsets| - 1
      invariant infos == InfosOf(added[..i])
    {
      OffsetsGiveSizes(before, added, i);
      assert added[..i + 1][..i] == added[..i];
      infos := infos + [StoredAccountInfo(offsets[i], offsets[i + 1] - offsets[i])];
    }
    assert added[..|added|] == added;
  }

  /** In the middle of a batch: what was there, what has been added, and what is left. */
  ghost predicate InBatch(start: seq<Placed>, items: seq<Storable>, size: nat,
                          ps: seq<Placed>, rest: seq<Storable>, added: seq<Placed>, offsets: seq<nat>) {
    && AllValid(items) && AllValid(rest) && ps == start + added && offsets == OffsetsOf(added)
    && Appended(ps, RawsOf(rest), size) == Appended(start, RawsOf(items), size)
  }

  lemma BatchStep(start: seq<Placed>, items: seq<Storable>, size: nat,
                  ps: seq<Placed>, rest: seq<Storable>, added: seq<Placed>, offsets: seq<nat>)
    requires InBatch(start, items, size, ps, rest, added, offsets) && rest != []
    ensures !Fits(ps, RawOf(rest[0]), size) ==> ps == Appended(start, RawsOf(items), size)
    ensures var p := Placed(NextOffset(ps), RawOf(rest[0]));
            Fits(ps, RawOf(rest[0]), size) ==>
              InBatch(start, items, size, ps + [p], rest[1..], added + [p], offsets + [p.offset])
  {
    AppendedStep(ps, rest, size);
    OffsetsOfSnoc(added, Placed(NextOffset(ps), RawOf(rest[0])));
  }

  // ---------------------------------------------------------------- the file

  ghost predicate AllSane(ps: seq<Placed>) {
    forall p :: p in ps ==> |p.raw.account| == ACCOUNT_META_SIZE && Sane(p.raw)
  }

  /** Another copy behind the published end. */
  lemma CopyGrows(now: Snapshot, ps: seq<Placed>, pos: nat, src: seq<Byte>)
    requires Laid(now, ps) && now.len <= pos && pos + |src| <= |now.bytes|
    ensures Grows(now, ps, Snapshot(Spliced(now.bytes, pos, src), now.len), ps)
  {
    var bytes := Spliced(now.bytes, pos, src);
    SplicedAt(now.bytes, pos, src);
    SliceOfPrefix(bytes, now.bytes, pos, 0, now.len);
    LaidStays(now, ps, bytes);
  }

  /** The record becomes visible with the new length. */
  lemma PublishGrows(before: seq<Byte>, now: Snapshot, ps: seq<Placed>, raw: Raw)
    requires Laid(Snapshot(before, now.len), ps) && raw.Valid()
    requires NextOffset(ps) + raw.Size() <= |before|
    requires EndOf(now.len, Vals(raw)) <= |before| && now.bytes == WriteAll(before, now.len, Vals(raw))
    ensures var ps' := ps + [Placed(NextOffset(ps), raw)];
            EndOf(now.len, Vals(raw)) == CurrentLen(ps') && Grows(now, ps, Snapshot(now.bytes, CurrentLen(ps')), ps')
  {
    NextIsAlignedLen(ps);
    RecordIsWritten(before, now.len, raw);
    WriteKeepsPrefix(before, now.len, Vals(raw), now.len);
    LaidStays(Snapshot(before, now.len), ps, now.bytes);
    var p := Placed(NextOffset(ps), raw);
    assert (ps + [p])[..|ps|] == ps;
  }

  /** A walk from `start` has come to `offset` and has read these accounts. */
  ghost predicate ReadSoFar(s: Snapshot, start: nat, offset: nat, accounts: seq<Loaded>)
    requires s.len <= |s.bytes| < U64_VALUES - 8
  {
    AccountsFrom(s, start) == accounts + AccountsFrom(s, offset)
  }

  lemma ReadOneMore(s: Snapshot, start: nat, offset: nat, accounts: seq<Loaded>)
    requires s.len <= |s.bytes| < U64_VALUES - 8 && ReadAccount(s, s, s, s, offset).Some?
    requires ReadSoFar(s, start, offset, accounts)
    ensures var r := ReadAccount(s, s, s, s, offset).value;
            offset < s.len && offset < r.next < U64_VALUES && ReadSoFar(s, start, r.next, accounts + [r])
  {
    ReadAdvances(s, offset);
    var r := ReadAccount(s, s, s, s, offset).value;
    assert accounts + ([r] + AccountsFrom(s, r.next)) == (accounts + [r]) + AccountsFrom(s, r.next);
  }

  lemma ReadAll(s: Snapshot, start: nat, offset: nat, accounts: seq<Loaded>)
    requires s.len <= |s.bytes| < U64_VALUES - 8 && ReadAccount(s, s, s, s, offset).None?
    requires ReadSoFar(s, start, offset, accounts)
    ensures accounts == AccountsFrom(s, start)
  {
  }

  class AppendVec {
    const mem: array<Byte>
    var currentLen: nat

    ghost var log: Log

    /** What holds of any file that was opened. */
    ghost predicate Sized()
      reads this
    {
      SanitizeLenAndSize(currentLen, mem.Length).None?
    }

    ghost function Now(): Snapshot
      reads this, mem
    {
      Snapshot(mem[..], currentLen)
    }

    /** The records in the file. */
    ghost function Written(): seq<Placed>
      reads this
    {
      log.ps
    }

    /** What holds of a file that accounts were appended to. */
    ghost predicate Valid()
      reads this, mem
    {
      Sized() && log.now == Now() && History(log) && AllSane(log.ps)
    }

    constructor (size: nat)
      requires SanitizeLenAndSize(0, size).None?
      ensures Valid() && fresh(mem) && mem.Length == size && Written() == []
    {
      mem := new Byte[size](i => 0);
      currentLen := 0;
      new;
      log := Start(Snapshot(mem[..], 0), []);
    }

    method Copy(pos: nat, src: seq<Byte>)
      requires pos + |src| <= mem.Length
      modifies mem
      ensures mem[..] == Spliced(old(mem[..]), pos, src)
    {
      forall k | 0 <= k < |src| {
        mem[pos + k] := src[k];
      }
    }

    /** `append_ptr`: a copy to the next multiple of eight. */
    method AppendPtr(offset: nat, src: seq<Byte>) returns (offset': nat)
      requires Valid() && currentLen <= offset && Align(offset) + |src| <= mem.Length
      modifies mem, this`log
      ensures Valid() && Extends(log, old(log)) && Written() == old(Written())
      ensures offset' == Align(offset) + |src| && mem[..] == Spliced(old(mem[..]), Align(offset), src)
    {
      var pos := Align(offset);
      AlignBound(offset);
      CopyGrows(Now(), log.ps, pos, src);
      Copy(pos, src);
      log := Then(log, Now(), log.ps);
      offset' := pos + |src|;
    }

    /** The copies of a record, without the publication. */
    method AppendAllPtrs(start: nat, vals: seq<seq<Byte>>) returns (offset: nat)
      requires Valid() && currentLen <= start && EndOf(start, vals) <= mem.Length
      modifies mem, this`log
      ensures Valid() && Extends(log, old(log)) && Written() == old(Written())
      ensures offset == EndOf(start, vals) && mem[..] == WriteAll(old(mem[..]), start, vals)
    {
      offset := start;
      EndGrows(start, vals, 0);
      for i := 0 to |vals|
        invariant Valid() && Extends(log, old(log)) && Written() == old(Written())
        invariant offset == EndOf(start, vals[..i]) && offset <= mem.Length
        invariant mem[..] == WriteAll(old(mem[..]), start, vals[..i])
      {
        NextCopy(old(mem[..]), start, vals, i, offset);
        ghost var before := log;
        offset := AppendPtr(offset, vals[i]);
        ExtendsTransitive(log, before, old(log));
      }
      assert vals[..|vals|] == vals;
    }

    method TotalEnd(start: nat, vals: seq<seq<Byte>>) returns (end: nat)
      ensures end == EndOf(start, vals)
    {
      end := start;
      for i := 0 to |vals|
        invariant end == EndOf(start, vals[..i])
      {
        assert vals[..i + 1][..i] == vals[..i];
        end := Align(end);
        end := end + |vals[i]|;
      }
      assert vals[..|vals|] == vals;
    }

    /** `append_ptrs_locked`: the record is there if it fits, and nothing has changed if it does not. */
    method AppendPtrsLocked(offset: nat, vals: seq<seq<Byte>>, ghost raw: Raw) returns (pos: Option<nat>, offset': nat)
      requires Valid() && offset == currentLen && vals == Vals(raw) && raw.Valid() && Sane(raw)
      modifies this, mem
      ensures Valid() && Extends(log, old(log)) && offset' == currentLen
      ensures pos == if Fits(old(Written()), raw, mem.Length) then Some(NextOffset(old(Written()))) else None
      ensures Written() == if pos.Some? then old(Written()) + [Placed(pos.value, raw)] else old(Written())
      ensures pos.None? ==> mem[..] == old(mem[..]) && currentLen == old(currentLen)
    {
      var end := TotalEnd(offset, vals);
      NextIsAlignedLen(log.ps);
      EndOfVals(offset, raw);
      if mem.Length < end {
        return None, offset;
      }
      var start := Align(offset);
      offset' := AppendAllPtrs(offset, vals);
      PublishGrows(old(mem[..]), Now(), log.ps, raw);
      currentLen := offset';
      log := Then(log, Now(), log.ps + [Placed(start, raw)]);
      pos := Some(start);
    }

    /** One account of a batch. */
    method AppendItem(offset: nat, item: Storable) returns (pos: Option<nat>, offset': nat)
      requires Valid() && offset == currentLen && item.Valid()
      modifies this, mem
      ensures Valid() && Extends(log, old(log)) && offset' == currentLen
      ensures pos == if Fits(old(Written()), RawOf(item), mem.Length) then Some(NextOffset(old(Written()))) else None
      ensures Written() == if pos.Some? then old(Written()) + [Placed(pos.value, RawOf(item))] else old(Written())
    {
      var raw := RawOf(item);
      WrittenIsSane(item);
      pos, offset' := AppendPtrsLocked(offset, Vals(raw), raw);
    }

    /** Appends accounts until one does not fit. */
    method AppendUntilFull(items: seq<Storable>) returns (offsets: seq<nat>, ghost added: seq<Placed>)
      requires Valid() && AllValid(items)
      modifies this, mem
      ensures Valid() && Extends(log, old(log)) && Written() == old(Written()) + added && offsets == OffsetsOf(added)
      ensures Written() == Appended(old(Written()), RawsOf(items), mem.Length)
    {
      var offset := currentLen;
      var rest := items;
      offsets, added := [], [];
      while rest != []
        invariant Valid() && Extends(log, old(log)) && offset == currentLen
        invariant InBatch(old(Written()), items, mem.Length, Written(), rest, added, offsets)
        decreases |rest|
      {
        var pos;
        ghost var before := log;
        BatchStep(old(Written()), items, mem.Length, Written(), rest, added, offsets);
        pos, offset := AppendItem(offset, rest[0]);
        ExtendsTransitive(log, before, old(log));
        if pos.None? {
          break;
        }
        added := added + [Placed(pos.value, RawOf(rest[0]))];
        offsets := offsets + [pos.value];
        rest := rest[1..];
      }
    }

    /** `append_accounts`: appends the accounts from `skip` on until one does not fit. */
    method AppendAccounts(items: seq<Storable>, skip: nat)
      returns (infos: Option<seq<StoredAccountInfo>>, ghost added: seq<Placed>)
      requires Valid() && skip <= |items| && AllValid(items[skip..])
      modifies this, mem
      ensures Valid() && Extends(log, old(log)) && Written() == old(Written()) + added
      ensures Written() == Appended(old(Written()), RawsOf(items[skip..]), mem.Length)
      ensures infos == if added == [] then None else Some(InfosOf(added))
    {
      var offsets;
      var wanted := items[skip..];
      offsets, added := AppendUntilFull(wanted);
      if |offsets| == 0 {
        infos := None;
      } else {
        NextIsAlignedLen(log.ps);
        var rv := InfosFromOffsets(offsets + [Align(currentLen)], old(Written()), added);
        infos := Some(rv);
      }
    }
  
    /** `reset`: the file starts over, and so does its history. */
    method Reset()
      requires Valid()
      modifies this
      ensures Valid() && Written() == [] && mem[..] == old(mem[..])
    {
      currentLen := 0;
      log := Start(Now(), []);
    }

    /** `remaining_bytes`: what is left for another record, with its fixed part. */
    method RemainingBytes() returns (r: nat)
      requires Valid()
      ensures forall raw: Raw :: Fits(Written(), raw, mem.Length) <==> raw.Size() <= r
    {
      NextIsAlignedLen(log.ps);
      var used := Align(currentLen);
      r := if mem.Length < used then 0 else mem.Length - used;
    }

    // -------------------------------------------------------------- reading

    method GetSlice(offset: nat, size: nat) returns (r: Option<Slice>)
      requires Sized() && offset < U64_VALUES && size < U64_VALUES
      ensures r == AppendLayouts.GetSlice(Now(), offset, size)
    {
      var next, overflow := (offset + size) % U64_VALUES, offset + size >= U64_VALUES;
      if overflow || next > currentLen {
        return None;
      }
      r := Some(Slice(mem[offset..next], Align(next)));
    }

    /** `get_account`, for any offset into any file. */
    method GetAccount(offset: nat) returns (r: Option<Loaded>)
      requires Sized() && offset < U64_VALUES
      ensures r == ReadAccount(Now(), Now(), Now(), Now(), offset)
    {
      var metaSlice := GetSlice(offset, STORED_META_SIZE);
      if metaSlice.None? { return None; }
      AlignBound(offset + STORED_META_SIZE);
      var accountSlice := GetSlice(metaSlice.value.next, ACCOUNT_META_SIZE);
      if accountSlice.None? { return None; }
      AlignBound(metaSlice.value.next + ACCOUNT_META_SIZE);
      var hashSlice := GetSlice(accountSlice.value.next, HASH_SIZE);
      if hashSlice.None? { return None; }
      AlignBound(accountSlice.value.next + HASH_SIZE);
      var dataSlice := GetSlice(hashSlice.value.next, DataLen(metaSlice.value.data));
      if dataSlice.None? { return None; }
      var next := dataSlice.value.next;
      r := Some(Loaded(Raw(metaSlice.value.data, accountSlice.value.data, hashSlice.value.data, dataSlice.value.data),
                       offset, next - offset, next));
    }

    /** `accounts`, for any offset into any file. */
    method Accounts(start: nat) returns (accounts: seq<Loaded>)
      requires Sized() && start < U64_VALUES
      ensures accounts == AccountsFrom(Now(), start)
    {
      var offset := start;
      accounts := [];
      var r := GetAccount(offset);
      ghost var now := Now();
      while r.Some?
        invariant offset < U64_VALUES && r == ReadAccount(now, now, now, now, offset)
        invariant ReadSoFar(now, start, offset, accounts)
        decreases currentLen - offset
      {
        ReadOneMore(now, start, offset, accounts);
        accounts := accounts + [r.value];
        offset := r.value.next;
        r := GetAccount(offset);
      }
      ReadAll(now, start, offset, accounts);
    }

    /** `sanitize_layout_and_length`, for any file. */
    method SanitizeLayoutAndLength() returns (sanitized: bool, count: nat)
      requires Sized()
      ensures var accounts := AccountsFrom(Now(), 0);
              && count == SaneCount(accounts)
              && sanitized == (count == |accounts| && WalkEnd(Now(), 0) == Align(currentLen))
    {
      var offset := 0;
      count := 0;
      var r := GetAccount(offset);
      while r.Some?
        invariant offset < U64_VALUES && r == ReadAccount(Now(), Now(), Now(), Now(), offset)
        invariant count + SaneCount(AccountsFrom(Now(), offset)) == SaneCount(AccountsFrom(Now(), 0))
        invariant count + |AccountsFrom(Now(), offset)| == |AccountsFrom(Now(), 0)|
        invariant WalkEnd(Now(), offset) == WalkEnd(Now(), 0)
        decreases currentLen - offset
      {
        ReadAdvances(Now(), offset);
        if !Sane(r.value.raw) {
          return false, count;
        }
        offset := r.value.next;
        count := count + 1;
        r := GetAccount(offset);
      }
      sanitized := offset == Align(currentLen);
    }
  }

  /** The number of accounts before the first that is not sane. */
  function SaneCount(accounts: seq<Loaded>): nat {
    if accounts == [] || |accounts[0].raw.account| != ACCOUNT_META_SIZE || !Sane(accounts[0].raw) then 0
    else 1 + SaneCount(accounts[1..])
  }

  // ---------------------------------------------------------------- what holds over whole runs

  /** The accounts that reading a file gives, decoded. */
  ghost predicate ReadsAs(accounts: seq<Loaded>, ps: seq<Placed>) {
    |accounts| == |ps| && forall i :: 0 <= i < |ps| ==> accounts[i] == LoadedFrom(ps[i]) && ps[i].raw.Valid()
  }

  /** Reading a file from its start gives all its records, in order; from any record on, that and all after it. */
  lemma FileReadsBack(s: Snapshot, ps: seq<Placed>, i: nat)
    requires Laid(s, ps) && i <= |ps|
    ensures i == 0 ==> OffsetAt(ps, i) == 0
    ensures ReadsAs(AccountsFrom(s, OffsetAt(ps, i)), ps[i..])
  {
    if ps != [] {
      PlaceOf(ps, 0);
    }
    WalkGivesAll(s, ps, i);
    forall j | 0 <= j < |ps[i..]|
      ensures ps[i..][j].raw.Valid()
    {
      assert ps[i..][j] in ps;
    }
  }

  /** The accounts counted are sane, and the next one, if there is one, is not. */
  lemma {:induction false} SaneCountIs(accounts: seq<Loaded>)
    requires forall a :: a in accounts ==> |a.raw.account| == ACCOUNT_META_SIZE
    ensures var n := SaneCount(accounts);
            && n <= |accounts| && (forall i :: 0 <= i < n ==> Sane(accounts[i].raw))
            && (n < |accounts| ==> !Sane(accounts[n].raw))
    decreases |accounts|
  {
    if accounts != [] && Sane(accounts[0].raw) {
      SaneCountIs(accounts[1..]);
    }
  }

  lemma {:induction false} SaneCountOfSane(accounts: seq<Loaded>)
    requires forall a :: a in accounts ==> |a.raw.account| == ACCOUNT_META_SIZE && Sane(a.raw)
    ensures SaneCount(accounts) == |accounts|
    decreases |accounts|
  {
    if accounts != [] {
      assert accounts[0] in accounts;
      SaneCountOfSane(accounts[1..]);
    }
  }

  lemma {:induction false} AllSaneOfCount(accounts: seq<Loaded>, i: nat)
    requires SaneCount(accounts) == |accounts| && i < |accounts|
    ensures |accounts[i].raw.account| == ACCOUNT_META_SIZE && Sane(accounts[i].raw)
    decreases |accounts|
  {
    if i > 0 {
      AllSaneOfCount(accounts[1..], i - 1);
    }
  }

  /** The layout check accepts every file that accounts were appended to, and counts them. */
  lemma WrittenFilePassesCheck(s: Snapshot, ps: seq<Placed>)
    requires Laid(s, ps) && AllSane(ps)
    ensures SaneCount(AccountsFrom(s, 0)) == |AccountsFrom(s, 0)| == |ps| && WalkEnd(s, 0) == Align(s.len)
  {
    FileReadsBack(s, ps, 0);
    WalkEndsAtNext(s, ps, 0);
    NextIsAlignedLen(ps);
    var accounts := AccountsFrom(s, 0);
    forall a | a in accounts
      ensures |a.raw.account| == ACCOUNT_META_SIZE && Sane(a.raw)
    {
      var i :| 0 <= i < |accounts| && accounts[i] == a;
      assert ps[0..][i] in ps;
    }
    SaneCountOfSane(accounts);
  }

  /** And whatever file it accepts is laid out in records, up to the published end and all of them sane. */
  lemma AcceptedFileHasRecords(s: Snapshot) returns (ps: seq<Placed>)
    requires s.len <= |s.bytes| < U64_VALUES - 8
    requires SaneCount(AccountsFrom(s, 0)) == |AccountsFrom(s, 0)| && WalkEnd(s, 0) == Align(s.len)
    ensures InFile(s, ps) && AllSane(ps) && CurrentLen(ps) <= s.len <= NextOffset(ps) == Align(s.len)
  {
    ps := WalkFindsRecords(s, []);
    assert [] + ps == ps;
    AlignBound(s.len);
    forall i | 0 <= i < |ps|
      ensures |ps[i].raw.account| == ACCOUNT_META_SIZE && Sane(ps[i].raw)
    {
      AllSaneOfCount(AccountsFrom(s, 0), i);
    }
  }

  /**
   A reader that walks the file while accounts are being appended, looking at any moments of its
   history, sees complete records in order, as many as have been published.
   */
  lemma ReadersSeePublishedRecords(log: Log, when: seq<nat>)
    requires History(log) && when != [] && InTime(when, |log.Moments()|)
    ensures var moments, contents := Select(log.Moments(), when), Select(log.Contents(), when);
            && (forall s :: s in moments ==> s.len <= |s.bytes|)
            && SeenFrom(Walk(moments, 0), 0, contents[0], contents[|when| - 1], |when|)
  {
    var moments, contents := Select(log.Moments(), when), Select(log.Contents(), when);
    HistoryIsGrowing(log);
    SelectionGrows(log.Moments(), log.Contents(), when);
    WalkSeesPublishedRecords(moments, contents, 0);
    assert Grows(moments[0], contents[0], moments[0], contents[0]);
    if contents[0] != [] {
      PlaceOf(contents[0], 0);
    }
  }

  /** Every offset of a record fits the 31 bits that an index entry has for it, and comes back from there. */
  lemma OffsetsCanBePacked(s: Snapshot, ps: seq<Placed>, i: nat, storeId: nat, lamports: nat)
    requires Laid(s, ps) && |s.bytes| <= MAXIMUM_APPEND_VEC_FILE_SIZE && i < |ps|
    ensures var location := AccountInfos.AppendVec(storeId, ps[i].offset);
            var info := AccountInfos.NewAccountInfo(location, lamports);
            && info.Returned? && info.value.Location() == location
            && !info.value.IsCached() && info.value.IsZeroLamport() == (lamports == 0)
  {
    PlaceOf(ps, i);
    AlignedIsMultiple(ps[i].offset);
    AccountInfos.PackingIsExact(AccountInfos.AppendVec(storeId, ps[i].offset), lamports);
  }

  lemma {:induction false} RawsOfAt(items: seq<Storable>, i: nat)
    requires AllValid(items) && i < |items|
    ensures items[i].Valid() && RawsOf(items)[i] == RawOf(items[i])
    decreases |items|
  {
    if i > 0 {
      RawsOfAt(items[1..], i - 1);
    }
  }

  /** What is appended for an account decodes to the account. */
  lemma AppendedDecodes(ps: seq<Placed>, items: seq<Storable>, size: nat, i: nat)
    requires AllValid(items) && i < FitCount(ps, RawsOf(items), size)
    ensures items[i].Valid() && |ps| + i < |Appended(ps, RawsOf(items), size)|
    ensures var raw, item := Appended(ps, RawsOf(items), size)[|ps| + i].raw, items[i];
            raw.Valid() && StoresItem(Decode(raw), item)
  {
    AppendedIsWhatFits(ps, RawsOf(items), size);
    RawsOfAt(items, i);
    RawOfRoundTrip(items[i]);
    RecordStoresItem(items[i]);
  }
}
