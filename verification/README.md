# The accounts database of a Solana validator, verified

A Dafny model of the `accounts-db` crate and proofs of what it promises. `dafny verify dfyconfig.toml`
checks everything.

The crate keeps the state of all accounts. Accounts are appended to storage files, one per slot; an
index lists, per account, the slots it was written in; banks of one fork read what their ancestors and
the rooted slots have; old versions are cleaned away; the final versions are hashed into one Merkle root.

**The accounts hash** (`Merkle`, `Offsets`, `BinarySearch`, `SortedSets`, `LatestVersions`, `Dedup`,
`AccountsHash`, `HashLaws`). The fast form — a merge of sorted groups with a working set that swaps pointers, into
files per bin, then a Merkle root over slices with three levels unrolled — computes the simple form: the
last version of each key, in key order, hashed level by level. `HashLaws` says what each account adds.

**The index** (`SlotLists`, `AccountsIndex`, `Scans`, `ScanLimits`, `IndexIterators`, `WholeScans`,
`Duplicates`, `RollingBitFields`). What a reader resolves, what cleaning takes away, and the protocol by
which scans stay undisturbed. `Scans` is a state machine over the steps of all threads. A scan takes
several steps to begin and to end; a clean fixes its bound once and cleans keys later, so scans can begin
in between. Its conditions on the callers are in one predicate, `Disciplined`; `ScanLimits` shows exactly
how far a clean may go. `WholeScans` puts the batches of the iterator and the machine together: a scan of
an index that changes under it gives what was there when it began.

**Storage** (`StoredAccounts`, `AppendLayouts`, `AppendVecs`, `AccountInfos`, `StorageRaces`). The byte
layout and its round trip, appends with readers in between, packed offsets, and the race of lookups with
the end of a shrink.

**Rent partitions** (`Partitions`, `RentCycles`), **account locks** (`Locks`) and **the blockhash queue**
(`BlockhashQueues`).

Code that changes things in place is a class or a loop here too. Each such class keeps a ghost history or
an abstract value, and its methods are proved against that: `held` for the locks, `log` for the storage
file and for the blockhash queue, `Items()` for the bit field, `State()` for the index.

Keys are numbers below 2^256, ordered as their bytes are (`Pubkeys.LexIsNumeric`). Hash functions are
parameters. A Rust panic is the result `Panicked`.

## Findings

Properties that the code does not have on all inputs, each with the exact condition:

- `RollingBitField::insert` loses or miscounts keys when everything it holds is in `excess` and some of it
  is not below the new key, although it is documented as similar to a hash set
  (`RollingBitFields.RollingBitField.Insert`, `RollingBitFields.ForgottenSlot`). A key above all others, as
  a new root is, never meets this case.
- `RollingBitField::get_prior` does not find slot 0 from a bound above 1, and answers 0 for the bound 0
  (`RollingBitFields.RollingBitField.GetPrior`).
- `BlockhashQueue::is_hash_valid` is documented to check the age, but with repeated hashes it accepts
  hashes of any age (`BlockhashQueues.RepeatedHashKeepsStale`, `BlockhashQueues.RegisterIsExact`).
- `partition_from_pubkey` is documented as the inverse of the range, but is not on the tail that the
  division leaves over, and can be beyond the buckets for very many partitions
  (`Partitions.PartitionIsTile`, `Partitions.AllBucketsExactly`; keys: `Partitions.KeyBeyondTheLastTile`,
  `Partitions.KeyWithoutBucket`).
- `get_partitions` leaves tiles out when a slot is skipped to land on the start of a cycle, or a whole
  cycle is skipped (`RentCycles.StepIsDueExactly`, `RentCycles.SkippingToACycleStartLosesTiles`,
  `RentCycles.SkippingACycleLosesEveryTile`).

## Model

| member | source | states |
|---|---|---|
| `Pubkeys.LexIsNumeric` | accounts-db/src/pubkey_bins.rs:32-36 | keys compare byte by byte like the big-endian numbers that stand for them, both directions |
| `Pubkeys.FirstThreeBytes` | accounts-db/src/pubkey_bins.rs:32-36 | the number a bin is computed from is the first three bytes of the key |
| `Pubkeys.BinsAreOrderedRanges` | accounts-db/src/pubkey_bins.rs:9-36 | bins are within range and follow the order of the keys, for every power-of-two number of bins |
| `Pubkeys.BinsAreEqualShares` | accounts-db/src/pubkey_bins.rs:9-36 | every bin has an equal share of all keys, as a range: bin b is from b shares on |
| `Merkle.DivCeil` | accounts-db/src/accounts_hash.rs:520-526 | the quotient rounded up: the least number of groups that hold everything |
| `Merkle.ComputeMerkleRootLoop` | accounts-db/src/accounts_hash.rs:530-567 | the loop computes the level-by-level root, for every list and every fanout from 2 |
| `Merkle.CalculateThreeLevelChunks` | accounts-db/src/accounts_hash.rs:569-594 | the chunk width is the fanout to the number of levels hashed per pass; three levels only when that cannot skip the root, never more than asked for |
| `Merkle.NextHash` | accounts-db/src/accounts_hash.rs:655-664 | the next hash is read from the current slice or from the next one, in order, for every provider of non-empty prefixes |
| `Merkle.HashThreeLevels` | accounts-db/src/accounts_hash.rs:704-728 | the three unrolled hashers compute three levels of the simple definition |
| `Merkle.HashPass` | accounts-db/src/accounts_hash.rs:616-732 | one pass over all chunks is the one-level hashing applied once or three times to the whole list |
| `Merkle.ComputeMerkleRootFromSlices` | accounts-db/src/accounts_hash.rs:598-775 | for every list, every slice provider and every limit on levels per pass: the same root as the simple definition; with a level count of L from 1, exactly L levels |
| `Merkle.LevelsAppend` | accounts-db/src/accounts_hash.rs:629-732 | levels of a list cut at a multiple of the chunk width are the levels of its parts |
| `Merkle.RootFinishes` | accounts-db/src/accounts_hash.rs:750-759 | the root of a large enough list is the root of its third level |
| `Merkle.RootOfFew` | accounts-db/src/accounts_hash.rs:535-538 | up to the fanout the root is one hash over all of them, also over none |
| `Offsets.NewCumulativeOffsets` | accounts-db/src/accounts_hash.rs:409-441 | the offsets describe the pieces: empty ones are skipped, the others cover the flattened list without gap or overlap |
| `Offsets.FindIndex` | accounts-db/src/accounts_hash.rs:442-452 | the piece found is the one that holds the position, for every position |
| `Offsets.GetSlice` | accounts-db/src/accounts_hash.rs:461-468 | a non-empty prefix of what is left of the flattened list |
| `Offsets.FromFiles` | accounts-db/src/accounts_hash.rs:375-407 | the readers are those of the files that were written, in order; files without hashes are dropped; together they read back exactly the concatenated contents |
| `Offsets.SliceOfProvides` | accounts-db/src/accounts_hash.rs:400-407 | the files are a slice provider for their concatenation |
| `Offsets.CalculateHash` | accounts-db/src/accounts_hash.rs:497-509 | the root of the flattened list, and its length |
| `BinarySearch.BinarySearchBy` | accounts-db/src/accounts_hash.rs:904-936 | a hit is equal, a miss is where it would have to be inserted |
| `Dedup.PotentialIndex` | accounts-db/src/accounts_hash.rs:911-929 | the inner search, which never answers with a hit, finds the first position that is not below the bin |
| `Dedup.BinarySearchForFirstPubkeyInBin` | accounts-db/src/accounts_hash.rs:904-936 | the least position in the bin, or none exactly if there is none |
| `Dedup.FindFirstPubkeyInBin` | accounts-db/src/accounts_hash.rs:940-976 | the guess and the search from there give the least position in the bin, or none exactly if there is none |
| `Dedup.GetItem` | accounts-db/src/accounts_hash.rs:863-900 | the last version of the key in its group, and the first position of the next greater key of the bin in it, if any |
| `Dedup.AddNextItem` | accounts-db/src/accounts_hash.rs:1047-1114 | whatever is inserted, swapped or skipped, the working set keeps describing what is left to merge: one pointer per group, in order, and each waiting key answered by a pointer of a group at least as high |
| `Dedup.SwapKeepsMerging` | accounts-db/src/accounts_hash.rs:1097-1110 | taking over the place of a lower group keeps the working set right |
| `AccountsHash.InitializeDedupWorkingSet` | accounts-db/src/accounts_hash.rs:980-1044 | the working set describes all keys of the bin in all groups; the count is the number of their entries |
| `AccountsHash.BinFitsCount` | accounts-db/src/accounts_hash.rs:1002-1043 | the distinct keys of a bin are at most the entries counted, so the file is large enough |
| `AccountsHash.CountIsPositions` | accounts-db/src/accounts_hash.rs:1002-1043 | the entries counted for a group are its positions of the bin |
| `AccountsHash.AccountHashesFile.Write` | accounts-db/src/accounts_hash.rs:86-163 | appends the hash; the callers stay within the capacity, and the file is created with room for at least one hash |
| `AccountsHash.PoppedIsNext` | accounts-db/src/accounts_hash.rs:1149-1184 | what is taken from the working set is the next key of the bin in ascending order |
| `AccountsHash.PoppedIsLatest` | accounts-db/src/accounts_hash.rs:1149-1158 | and it carries the last version of that key over all groups |
| `AccountsHash.DeDupAccountsInBin` | accounts-db/src/accounts_hash.rs:1123-1187 | the file holds the hash of the last version of each key of the bin, each once, ascending, without (or with replaced) zero-lamport ones; the sum is that of their lamports, and there is a panic exactly if it does not fit 64 bits |
| `AccountsHash.DeDupAccounts` | accounts-db/src/accounts_hash.rs:800-859 | the same over any range of bins, however the bins are folded and reduced |
| `AccountsHash.RestOfHashCalculation` | accounts-db/src/accounts_hash.rs:1192-1217 | the hash is the simple Merkle root over the final versions of all accounts in key order and the capitalization is their total, whatever the number of bins; a panic exactly on overflow |
| `AccountsHash.GroupingDoesNotMatter` | accounts-db/src/accounts_hash.rs:1192-1217 | cutting the slot-ordered data into other groups, each sorted stably, changes neither hash nor capitalization |
| `HashLaws.IncludedHashIs` | accounts-db/src/accounts_hash.rs:1160-1175 | with accounts without lamports included, the tree is over one hash per key in key order: that of its last version, or that of the key for an account without lamports |
| `HashLaws.ExcludedHashIs` | accounts-db/src/accounts_hash.rs:1160-1175 | with them excluded, it is over exactly the hashes of the last versions that have lamports, in key order |
| `HashLaws.ExcludedLeaveNoTrace` | accounts-db/src/accounts_hash.rs:1160-1175 | excluded accounts can be removed from the data with all their versions, and the hash of keys can be any function, without changing the accounts hash |
| `HashLaws.CapitalizationMoves` | accounts-db/src/accounts_hash.rs:1160-1170 | one more version of an account changes the capitalization by the change of its balance; of no accounts it is 0 |
| `SlotLists.LatestSlot` | accounts-db/src/accounts_index.rs:1313-1350 | the position of the newest entry that is an ancestor or a root within the bound, the later one of two in a slot; none exactly if there is none |
| `SlotLists.ResolveIsNewest` | accounts-db/src/accounts_index.rs:1313-1350 | the resolved entry is the last one of the newest slot that is seen |
| `SlotLists.LatestIsResolved` | accounts-db/src/accounts_index.rs:1313-1350 | the position found holds the resolved entry |
| `SlotLists.ReaderGetsNewestVisible` | accounts-db/src/accounts_index.rs:1313-1350 | stated with roots, ancestors and bound alone: the entry of the newest slot that is an ancestor or a root within the bound, and none exactly if there is no such slot in the list |
| `SlotLists.GetNewestRootInSlotList` | accounts-db/src/accounts_index.rs:1452-1469 | the newest root of the list up to the bound, or 0 |
| `SlotLists.NewestRootIsNewest` | accounts-db/src/accounts_index.rs:1452-1469 | it is a root of the list within the bound unless it is 0, and no such root is newer |
| `SlotLists.PurgeOlderRootEntries` | accounts-db/src/accounts_index.rs:1808-1839 | the list and the reclaims after the purge |
| `SlotLists.PurgedExactly` | accounts-db/src/accounts_index.rs:1808-1889 | stated with list, roots and bounds alone: what is stored below the clean root is reclaimed, also in unrooted slots above the newest root, except in the newest rooted slot; everything else is kept |
| `SlotLists.PurgeConserves` | accounts-db/src/accounts_index.rs:1825-1838 | kept and reclaimed entries together are the entries there were |
| `SlotLists.PurgedAboveNewestIsUnrooted` | accounts-db/src/accounts_index.rs:1871-1889 | an entry that is purged although it is newer than the newest root is in an unrooted slot, with a bound and, as long as no root is beyond the newest one, without |
| `SlotLists.CleaningPreservesReaders` | accounts-db/src/accounts_index.rs:1808-1889 | a reader whose root bound is not below the clean root, and whose fork below it is rooted, resolves every list as before, with a bound and without |
| `SlotLists.UpdateSlotList` | accounts-db/src/accounts_index/in_mem_accounts_index.rs:618-688 | the list, the reclaims and the reference flag after an update of one or two slots; a panic exactly if one of the slots is twice in the list or an entry that should have been cached was not |
| `SlotLists.MatchedExactly` | accounts-db/src/accounts_index/in_mem_accounts_index.rs:636-668 | what an update replaces and reclaims are the entries of the list in either of the two slots |
| `SlotLists.UpdateConserves` | accounts-db/src/accounts_index/in_mem_accounts_index.rs:618-688 | with any list: the new entry comes in, what it replaces goes out, and nothing else does |
| `SlotLists.UpdatedSlots` | accounts-db/src/accounts_index/in_mem_accounts_index.rs:609-688 | after an update there is still one entry per slot: the new one, none in the other slot, and all the others as they were |
| `SlotLists.WithoutSlotsConserves` | accounts-db/src/accounts_index.rs:1283-1305 | purged and remaining entries together are the entries there were |
| `AccountsIndexes.AccountsIndex.Lookup` | accounts-db/src/accounts_index.rs:1313-1350 | a reader gets the entry that is resolved for the key |
| `AccountsIndexes.AccountsIndex.Upsert` | accounts-db/src/accounts_index.rs:1743-1778 | the list of the key is updated, or created with the new entry |
| `AccountsIndexes.AccountsIndex.PurgeExact` | accounts-db/src/accounts_index.rs:1283-1305 | the entries of the slots are reclaimed; true exactly if nothing is left for the key |
| `AccountsIndexes.PurgeSlotsExactly` | accounts-db/src/accounts_index.rs:1283-1305 | exactly the entries of the key in the slots are gone, and no key leaves the index |
| `AccountsIndexes.AccountsIndex.CleanRootedEntries` | accounts-db/src/accounts_index.rs:1845-1869 | the list is cleaned; true exactly if the key is not in the index afterwards |
| `AccountsIndexes.CleanedKeyGoesExactly` | accounts-db/src/accounts_index.rs:1845-1869 | the key leaves the index exactly if nothing is left in its list; other keys and the roots are not concerned |
| `AccountsIndexes.AccountsIndex.AddRoot` | accounts-db/src/accounts_index.rs:1913-1920 | the root is added; a panic exactly if it is older than the newest root there was |
| `AccountsIndexes.NewRootShows` | accounts-db/src/accounts_index.rs:1913-1920 | a new root shows what is in its slot to a reader of the roots, before anything older |
| `AccountsIndexes.AccountsIndex.CleanDeadSlot` | accounts-db/src/accounts_index.rs:1941-1955 | the root is removed, the newest root stays what it was; true exactly if it was a root |
| `AccountsIndexes.DeadSlotIsHidden` | accounts-db/src/accounts_index.rs:1941-1955 | a slot cleaned as dead does not show any more, and what other roots show stays |
| `AccountsIndexes.AccountsIndex.RegisterScan` | accounts-db/src/accounts_index.rs:771-913 | registered at the newest root, one more there; without ancestors unless that root is among them |
| `AccountsIndexes.AccountsIndex.UnregisterScan` | accounts-db/src/accounts_index.rs:951-959 | the registration is taken back, the entry with the last one |
| `AccountsIndexes.AccountsIndex.MinOngoingScanRoot` | accounts-db/src/accounts_index.rs:1307-1309 | the least root that a scan is registered at |
| `AccountsIndexes.MaxCleanRootIsLeast` | accounts-db/src/accounts_db.rs:2777-2789 | the bound of a clean is the least of the proposed one and the least root with a scan, as far as there are such |
| `Scans.StepKeepsCounted` | accounts-db/src/accounts_index.rs:770-797 | the registrations count the scans under way per root, through every step |
| `Scans.ScanStaysValid` | accounts-db/src/accounts_index.rs:799-913 | no step of any thread disturbs a scan whose bank is not removed |
| `Scans.StepKeepsInv` | accounts-db/src/accounts_index.rs:747-977 | every step of every thread keeps the invariant of scans, cleans, roots and lists |
| `Scans.ScanIsolation` | accounts-db/src/accounts_index.rs:799-977 | after any interleaving, every scan that would end well resolves every key to the entry it would have found when it began; the registrations count the scans; no clean reaches beyond a root that a scan is registered at |
| `Scans.OkScanWasNeverDisturbed` | accounts-db/src/accounts_index.rs:951-976 | a scan that is found good after it is unregistered was undisturbed as long as it was registered, so all its reads belong to one state |
| `Scans.RemovedBankIsNoticed` | accounts-db/src/accounts_db.rs:5862-5870 | from the step that removes its bank on, be it before the scan is registered, while it is, or after it is unregistered, no scan of the bank is admitted and the scan ends with the error |
| `Scans.RemovedExactly` | accounts-db/src/accounts_db.rs:5862-5870 | after any run, a bank is marked exactly if it was removed and not dropped since |
| `Scans.AdmittedExactly` | accounts-db/src/accounts_index.rs:760-768 | a scan of a bank is admitted exactly if the bank is not marked |
| `Scans.FinishesWellExactly` | accounts-db/src/accounts_index.rs:961-976 | a scan ends with the error exactly if its bank is marked when it looks again |
| `Scans.HoldsExactly` | accounts-db/src/accounts_db.rs:5530-5535 | a scan holds its bank exactly from its admission until it finishes |
| `Scans.FinishedScanLetsGo` | accounts-db/src/accounts_db.rs:5530-5541 | a finished scan holds no bank any more, and others are not concerned |
| `Scans.ScanSeesExactly` | accounts-db/src/accounts_index.rs:799-913 | a scan sees the roots, and its ancestors exactly if the newest root is among them |
| `Scans.CleanIsUnderWay` | accounts-db/src/accounts_db.rs:3060-3080 | a clean works exactly from its beginning to its end, with one bound |
| `ScanLimits.CleanBoundIsExact` | accounts-db/src/accounts_db.rs:2777-2789 | from every state of the invariant: after a clean begins, no run in which writes go to unrooted slots only breaks a scan, if and only if there is a bound and it is at most the newest root, or one beyond it while what the roots have of each key is cached or nothing |
| `ScanLimits.FurtherCleanBreaks` | accounts-db/src/accounts_db.rs:2777-2789 | with any other bound, or none, a run breaks a scan: a scan begins, a new slot is written and rooted, the key is cleaned |
| `ScanLimits.NearIsUnbreakable` | accounts-db/src/accounts_db.rs:2777-2789 | one beyond the newest root, nothing can be lost while nothing is stored: an invariant of all careful runs |
| `ScanLimits.WithoutARootScansBreak` | accounts-db/src/accounts_index.rs:771-797 | without any root a scan can be disturbed, by a run that is given |
| `WholeScans.ScanAccounts` | accounts-db/src/accounts_index.rs:747-1054 | in any run of the machine, each bin and each list read in a moment of its own: if the bank is not removed by the end, the scan has passed on exactly the keys in range that were resolved when it began, with their entries of then; in key order, or each once in unsorted mode |
| `WholeScans.DoScanAccounts` | accounts-db/src/accounts_index.rs:996-1054 | the loop ends, however the index changes, and gives exactly what was resolved at the beginning if no moment disturbs the scan |
| `WholeScans.ResolveBatch` | accounts-db/src/accounts_index.rs:1016-1037 | of a batch, the keys that were resolved at the beginning are passed on, with their entries |
| `WholeScans.ReadList` | accounts-db/src/accounts_index.rs:1019-1031 | the entry that the list of the key is resolved to in this moment |
| `WholeScans.BatchAdvances` | accounts-db/src/accounts_index.rs:568-597 | whatever keys come and go, what a batch passes on and what is resolved behind its last key together are what is resolved behind its start |
| `WholeScans.ResolvedIsSeen` | accounts-db/src/accounts_index.rs:572-586 | a key that was resolved at the beginning is in its bin in every undisturbed moment |
| `WholeScans.MomentIsIsolated` | accounts-db/src/accounts_index.rs:799-976 | no moment of a run in which a good scan is registered disturbs it |
| `WholeScans.SortedResultIsUnique` | accounts-db/src/accounts_index.rs:996-1054 | in sorted mode the result is determined by the beginning |
| `IndexIterators.KeyIsInBins` | accounts-db/src/accounts_index.rs:488-521 | every key in range is in one of the bins that are looked at, for all kinds of bounds |
| `IndexIterators.RangeSplits` | accounts-db/src/accounts_index/in_mem_accounts_index.rs:224-242 | a key cuts every range in two without loss or overlap, whichever side it is included on |
| `IndexIterators.Range` | accounts-db/src/accounts_index.rs:465-478 | the keys of a bin in range, each once, ascending unless everything is wanted at once |
| `IndexIterators.RestAfterBatch` | accounts-db/src/accounts_index.rs:588-596 | starting behind the last key of a batch leaves exactly what has not been listed |
| `IndexIterators.BatchIsBeginning` | accounts-db/src/accounts_index.rs:572-586 | a batch is the first thousand of the keys, or all of them |
| `IndexIterators.AccountsIndexIterator.Next` | accounts-db/src/accounts_index.rs:568-597 | from the bins as they are at the call: sorted, the next up to 1000 keys behind the last batch, in order, and none exactly if there are none; unsorted, all keys in range once, then nothing |
| `IndexIterators.AccountsIndexIterator.CollectAll` | accounts-db/src/accounts_index.rs:564-598 | if the index does not change, the batches end, and together they are exactly the keys in range in ascending order across bins |
| `Duplicates.StableSortedIs` | accounts-db/src/accounts_index.rs:1595-1597 | the sort is a sorted permutation that keeps the versions of each key in order |
| `Duplicates.Compact` | accounts-db/src/accounts_index.rs:1600-1623 | the loop moves what is kept to the end of the array, in place |
| `Duplicates.KeptIsLatest` | accounts-db/src/accounts_index.rs:1586-1628 | the version of each key that is kept is its last one |
| `Duplicates.NothingIsLost` | accounts-db/src/accounts_index.rs:1607-1627 | kept items and duplicates together are the items there were |
| `Duplicates.NoDuplicatesExactly` | accounts-db/src/accounts_index.rs:1598-1627 | there are no duplicates exactly if the keys are distinct |
| `Duplicates.RemoveOlderDuplicatePubkeys` | accounts-db/src/accounts_index.rs:1589-1628 | the rest is strictly sorted and holds the last item of each key, the duplicates are exactly the others, and none are returned if and only if there are none |
| `RollingBitFields.RollingBitField.ContainsIsMembership` | accounts-db/src/rolling_bit_field.rs:206-225 | the answer is membership in the set that is stood for |
| `RollingBitFields.RollingBitField.Insert` | accounts-db/src/rolling_bit_field.rs:83-146 | the field answers like the set with the new key if and only if not everything was in the excess with some of it at or above the key; else nothing above the key is found |
| `RollingBitFields.RollingBitField.MakeRoom` | accounts-db/src/rolling_bit_field.rs:95-121 | moving the least keys out of the window loses none, and the window becomes wide enough or empty |
| `RollingBitFields.RollingBitField.NewestIsNotForgotten` | accounts-db/src/rolling_bit_field.rs:83-146 | keys that only grow are always inserted like into a set |
| `RollingBitFields.ForgottenSlot` | accounts-db/src/rolling_bit_field.rs:84-86 | the exception, by calls on a new field: 5 and 100 inserted, 100 removed, 5 is found; 3 inserted, 5 is not found |
| `RollingBitFields.RollingBitField.Remove` | accounts-db/src/rolling_bit_field.rs:149-172 | the key is gone, and the answer tells whether it was there |
| `RollingBitFields.RollingBitField.Purge` | accounts-db/src/rolling_bit_field.rs:179-204 | the minimum is again the least key in the bits, or the window is empty |
| `RollingBitFields.RollingBitField.Min` | accounts-db/src/rolling_bit_field.rs:68-81 | the least key, wherever it is kept; none exactly if there is none |
| `RollingBitFields.RollingBitField.GetAllLessThan` | accounts-db/src/rolling_bit_field.rs:244-261 | each key below the bound once |
| `RollingBitFields.RollingBitField.GetPrior` | accounts-db/src/rolling_bit_field.rs:264-278 | the greatest key below the bound if and only if slot 0 does not get in the way |
| `RollingBitFields.PriorOfZero` | accounts-db/src/rolling_bit_field.rs:271-274 | the exception: slot 0 alone is not found from any bound above 1 |
| `AccountInfos.PackingIsExact` | accounts-db/src/account_info.rs:73-188 | a location can be packed exactly if its offset is aligned and below the sentinel, and then location, cached mark and zero-lamport flag come back |
| `AccountInfos.PackingIsInjective` | accounts-db/src/account_info.rs:127-157 | different locations are never packed alike |
| `StoredAccounts.AlignIsMask` | accounts-db/src/accounts_file.rs:20-28 | the next multiple of eight |
| `StoredAccounts.RecordRoundTrip` | accounts-db/src/account_storage/meta.rs:236-262 | the two structures read back as written, whatever is in the padding |
| `StoredAccounts.FieldsAreAt` | accounts-db/src/account_storage/meta.rs:236-262 | where each field is in the bytes of the two structures |
| `StoredAccounts.LeastByteFirst` | accounts-db/src/account_storage/meta.rs:236-262 | numbers are stored least significant byte first |
| `AppendVecs.SanitizeLenAndSize` | accounts-db/src/append_vec.rs:295-314 | no error exactly for a size from 1 to 16 GiB that holds the length; else which one |
| `AppendLayouts.PublishedIsRead` | accounts-db/src/append_vec.rs:420-505 | at a published record each of the four reads may happen at a later moment, and the record is read |
| `AppendLayouts.ReadAdvances` | accounts-db/src/append_vec.rs:488-505 | every read account moves the walk on by at least its fixed part, at any offset of any file |
| `AppendLayouts.WalkSeesPublishedRecords` | accounts-db/src/append_vec.rs:558-565 | a walk interleaved with appends sees complete records, in order and without a gap: all that were published when it began, as far as it gets, and none that never was |
| `AppendVecs.RecordIsWritten` | accounts-db/src/append_vec.rs:438-472 | the four copies put the record at the next multiple of eight |
| `AppendVecs.AppendVec.AppendPtr` | accounts-db/src/append_vec.rs:438-449 | the copy changes nothing that is published |
| `AppendVecs.AppendVec.AppendPtrsLocked` | accounts-db/src/append_vec.rs:455-472 | the record is appended exactly if it fits, else nothing changes |
| `AppendVecs.AppendVec.AppendAccounts` | accounts-db/src/append_vec.rs:574-650 | accounts are appended until one does not fit; none is returned exactly if none did, else offset and aligned size of each |
| `AppendVecs.AppendedIsWhatFits` | accounts-db/src/append_vec.rs:594-631 | what is appended is the longest part from the start that fits |
| `AppendVecs.FitsExactly` | accounts-db/src/append_vec.rs:461-466 | a record fits exactly if it ends within the file when it begins at the next multiple of eight |
| `AppendVecs.AppendedDecodes` | accounts-db/src/append_vec.rs:595-611 | field by field: each appended record decodes to the key, the hash, the write version and the account that were given; without lamports to the account of all zeros and no data |
| `AppendVecs.InfosReachToTheNext` | accounts-db/src/append_vec.rs:633-650 | the offsets and sizes returned are where each record begins and that it reaches to the next, the last one to the next multiple of eight |
| `AppendVecs.AppendVec.RemainingBytes` | accounts-db/src/append_vec.rs:329-332 | a record fits exactly if it is not larger than this |
| `AppendVecs.AppendVec.GetSlice` | accounts-db/src/append_vec.rs:420-434 | the bytes, exactly if they are published and the addition does not overflow |
| `AppendVecs.AppendVec.GetAccount` | accounts-db/src/append_vec.rs:488-505 | the account at any offset of any file, or none |
| `AppendVecs.AppendVec.Accounts` | accounts-db/src/append_vec.rs:558-565 | all accounts from any offset of any file |
| `AppendVecs.FileReadsBack` | accounts-db/src/append_vec.rs:558-565 | from its start, or from any record on, a file reads back exactly the records written, with their aligned sizes |
| `AppendVecs.AppendVec.SanitizeLayoutAndLength` | accounts-db/src/append_vec.rs:395-414 | counts the accounts before the first that is not sane, and accepts exactly if there is none and the walk ends at the aligned length |
| `AppendVecs.SaneCountIs` | accounts-db/src/append_vec.rs:395-414 | the accounts counted are sane and the next one is not |
| `AppendVecs.WrittenFilePassesCheck` | accounts-db/src/append_vec.rs:395-414 | every file that accounts were appended to is accepted, with their number |
| `AppendVecs.AcceptedFileHasRecords` | accounts-db/src/append_vec.rs:350-363 | every accepted file, wherever it is from, consists of sane records up to its length |
| `AppendVecs.ReadersSeePublishedRecords` | accounts-db/src/append_vec.rs:567-573 | over the whole history of a file, copy by copy, readers see prefixes of complete records |
| `AppendVecs.OffsetsCanBePacked` | accounts-db/src/append_vec.rs:455-472 | every offset of a record passes the assertions of the packed account info and comes back from it, never mistaken for the cached mark |
| `StorageRaces.AssertionsHold` | accounts-db/src/account_storage.rs:155-253 | no assertion fails while each slot is shrunk by one thread at a time into a store with an id of its own, and slots are inserted once and while no shrink is registered |
| `StorageRaces.StepKeepsInv` | accounts-db/src/account_storage.rs:132-253 | what each phase of a shrink finds in the two maps, through every step of every thread |
| `StorageRaces.InsertedIsAvailable` | accounts-db/src/account_storage.rs:132-147 | an inserted store is found under its slot and id |
| `StorageRaces.RemovedIsNotAvailable` | accounts-db/src/account_storage.rs:117-124 | a removed slot has no store, and others are not concerned |
| `StorageRaces.RegisteredStoreIsFound` | accounts-db/src/account_storage.rs:36-68 | a reader that begins when the store is registered finds that store within three lookups, in every interleaving in which the slot is not removed and no second shrink of it completes |
| `StorageRaces.StartedReaderFinds` | accounts-db/src/account_storage.rs:36-68 | the same from the step that starts the reader |
| `StorageRaces.TwoShrinksMiss` | accounts-db/src/account_storage.rs:43-49 | with a second shrink it can be missed, by a run that is given |
| `Partitions.WidthIsFloor` | accounts-db/src/accounts_partition.rs:216-217 | the width is 2^64 divided by the number of partitions, without overflow |
| `Partitions.PrefixIsFirstEightBytes` | accounts-db/src/accounts_partition.rs:310-313 | the prefix is the number that the first eight bytes of the key spell |
| `Partitions.Width` | accounts-db/src/accounts_partition.rs:216-217 | 2^64 divided by the number of partitions |
| `Partitions.RangeIsTiles` | accounts-db/src/accounts_partition.rs:195-308 | the key range of every partition that is for something is exactly the tiles it names; no product wraps around |
| `Partitions.RangePanicsExactly` | accounts-db/src/accounts_partition.rs:195-205 | a range is defined exactly for indexes in order below their number |
| `Partitions.OnePartitionHasAll` | accounts-db/src/accounts_partition.rs:195-215 | of one partition, range and index are for every key; of none, there is neither |
| `Partitions.TilesCoverKeysOnce` | accounts-db/src/accounts_partition.rs:195-308 | every key is in the range of exactly one of the partitions (0,0), (0,1), (1,2), ... |
| `Partitions.TilesMeet` | accounts-db/src/accounts_partition.rs:305-307 | neighbouring ranges meet, the first begins with the first key and the last ends with the last |
| `Partitions.PartitionIsTile` | accounts-db/src/accounts_partition.rs:315-346 | the index of a key is that of its tile if and only if its prefix is below the number of partitions times the width, or the last prefix |
| `Partitions.AllTilesExactly` | accounts-db/src/accounts_partition.rs:315-346 | every key has the index of its tile if and only if the number of partitions times the width reaches the last prefix |
| `Partitions.KeyBeyondTheLastTile` | accounts-db/src/accounts_partition.rs:337-345 | the exception: with 7 partitions, a key of tile 6 gets index 7 |
| `Partitions.BucketExactly` | accounts-db/src/accounts_partition.rs:370-385 | there is a bucket for a key if and only if its prefix is the last one or below one more width |
| `Partitions.AllBucketsExactly` | accounts-db/src/accounts_partition.rs:370-385 | there is a bucket for every key if and only if one more width reaches the last prefix |
| `Partitions.KeyWithoutBucket` | accounts-db/src/accounts_partition.rs:379-385 | the exception: with 2^63 + 1 partitions there is a key without a bucket |
| `Partitions.FewPartitionsHaveBuckets` | accounts-db/src/accounts_partition.rs:370-385 | from 2 to 2^32 partitions there is a bucket for every key |
| `Partitions.RentPayingAccountsByPartition.AddAccount` | accounts-db/src/accounts_partition.rs:379-385 | the key is added; a panic exactly if there is no bucket |
| `Partitions.RentPayingAccountsByPartition.GetPubkeysInPartitionIndex` | accounts-db/src/accounts_partition.rs:386-394 | exactly the added keys with this index |
| `RentCycles.RangeIsEndIndexes` | accounts-db/src/accounts_partition.rs:101-121 | a key is in the range of a partition exactly if its tile is one of the end indexes |
| `RentCycles.NoopIsOneKey` | accounts-db/src/accounts_partition.rs:232-242 | a partition from an index to itself has no end index, and its range is one key: the first of the next tile, or the last key of all |
| `RentCycles.GetPartitions` | accounts-db/src/accounts_partition.rs:154-189 | the partitions of a slot, with those of a gap across a cycle boundary |
| `RentCycles.StepIsDueExactly` | accounts-db/src/accounts_partition.rs:154-189 | the end indexes are parent+1 up to the slot, modulo the number of partitions, if and only if at most one boundary is crossed and no slot is skipped to land on the start of a cycle |
| `RentCycles.SkippingToACycleStartLosesTiles` | accounts-db/src/accounts_partition.rs:164-180 | landing on the start of the next cycle, the tiles after the parent are left out |
| `RentCycles.SkippingACycleLosesEveryTile` | accounts-db/src/accounts_partition.rs:164-180 | skipping a whole cycle or more, every tile comes up less often than it is due |
| `RentCycles.ChainVisitsWhatIsDue` | accounts-db/src/accounts_partition.rs:154-189 | along every regular chain of slots the end indexes are consecutive |
| `RentCycles.EveryTileIsDue` | accounts-db/src/accounts_partition.rs:14-16 | in any full cycle every tile is due, and not again before another full cycle |
| `RentCycles.FullCycleCollectsFromEveryKey` | accounts-db/src/accounts_partition.rs:14-16 | a chain that is a full cycle long collects rent from every key |
| `Locks.AccountLocks.LockAccount` | accounts-db/src/accounts.rs:528-558 | granted exactly if no holder clashes; a refusal changes nothing |
| `Locks.AccountLocks.UnlockAccount` | accounts-db/src/accounts.rs:560-572 | the tables are those of the other holders |
| `Locks.AccountLocks.LockAccounts` | accounts-db/src/accounts.rs:608-624 | each request of a batch is granted against the holders before it |
| `Locks.AccountLocks.UnlockAccounts` | accounts-db/src/accounts.rs:628-645 | exactly those whose result was good are released |
| `Locks.HoldersDetermineTables` | accounts-db/src/accounts.rs:47-98 | the holders determine both tables, whatever order of locks and releases led there |
| `Locks.WritersAreAlone` | accounts-db/src/accounts.rs:574-576 | a key that is written has one writer and no reader |
| `Locks.ClashIsMutual` | accounts-db/src/accounts.rs:534-546 | clashing goes both ways, writing clashes with any use, and readers do not clash |
| `Locks.InvalidIsRejected` | accounts-db/src/accounts.rs:608-624 | a request that was invalid before gets its own error back, and no other request does |
| `Locks.NoHoldersNoLocks` | accounts-db/src/accounts.rs:76-97 | without holders both tables are empty |
| `Locks.RefusedForAReason` | accounts-db/src/accounts.rs:534-547 | a refused transaction clashes with one that holds its locks at the end of the batch |
| `Locks.ReleasedBatchLeavesTheRest` | accounts-db/src/accounts.rs:608-645 | releasing what a batch was granted leaves the holders from before |
| `BlockhashQueues.BlockhashQueue.RegisterHash` | accounts-db/src/blockhash_queue.rs:96-114 | the map reflects the history with the new hash: at most max_age+1 entries, each of the latest registration, every recent hash among them |
| `BlockhashQueues.BlockhashQueue.GenesisHash` | accounts-db/src/blockhash_queue.rs:79-90 | the map reflects a history that begins with the genesis hash |
| `BlockhashQueues.BlockhashQueue.IsHashValidForAge` | accounts-db/src/blockhash_queue.rs:66-71 | up to max_age, valid exactly if the latest registration is among the last age+1 |
| `BlockhashQueues.RecentExactly` | accounts-db/src/blockhash_queue.rs:66-71 | a hash is recent exactly if it is among the last age+1 registrations |
| `BlockhashQueues.BlockhashQueue.IsHashValid` | accounts-db/src/blockhash_queue.rs:61-63 | every recent hash is valid; if no hash was registered twice, only those are |
| `BlockhashQueues.BlockhashQueue.GetHashAge` | accounts-db/src/blockhash_queue.rs:73-77 | the number of registrations since the latest one of the hash |
| `BlockhashQueues.RegisterIsExact` | accounts-db/src/blockhash_queue.rs:97-102 | after a registration the entries are exactly the recent hashes if and only if the map was full enough to be looked through or no other entry was getting too old |
| `BlockhashQueues.RepeatedHashKeepsStale` | accounts-db/src/blockhash_queue.rs:60-63 | the exception, by calls on a new queue: one hash, then another one again and again; the first stays valid however old it gets |
| `BlockhashQueues.DistinctStaysExact` | accounts-db/src/blockhash_queue.rs:96-114 | for distinct hashes the map is exactly the last max_age+1 registered |
| `Merkle.HashGroup` | accounts-db/src/accounts_hash.rs:652-664 | one group of hashes is hashed, read across slices |
| `Merkle.HashTwoLevels` | accounts-db/src/accounts_hash.rs:706-726 | the two inner hashers compute the hash of one level over at most a square of the fanout |
| `Dedup.FindInWorkingSet` | accounts-db/src/accounts_hash.rs:1072-1075 | the search in the descending working set finds the key or where it belongs |
| `Dedup.SettleWith` | accounts-db/src/accounts_hash.rs:1085-1111 | of two groups with the same key the higher one stays, and the lower one goes on with a greater key |
| `AccountsHash.AddGroup` | accounts-db/src/accounts_hash.rs:1002-1043 | one more group is in the working set, and its entries of the bin are counted |
| `AccountsHash.EmitItem` | accounts-db/src/accounts_hash.rs:1160-1175 | the hash that the account adds is written, and its lamports are added or the sum overflows |
| `AccountsHash.MergeAll` | accounts-db/src/accounts_hash.rs:1149-1184 | the loop emits everything that the working set described |
| `SlotLists.LatestAncestor` | accounts-db/src/accounts_index.rs:1319-1330 | the newest entry among the ancestors |
| `SlotLists.RetainOutside` | accounts-db/src/accounts_index.rs:1292-1303 | the entries of the slots are moved to the reclaims |
| `Scans.StepKeepsCleans` | accounts-db/src/accounts_index.rs:906-912 | no clean under way reaches beyond a root that a scan is registered at, also for scans that begin after it |
| `Scans.RunKeepsInv` | accounts-db/src/accounts_index.rs:747-977 | the invariant holds after every run |
| `IndexIterators.Items` | accounts-db/src/accounts_index/in_mem_accounts_index.rs:224-242 | the keys of a bin in range, each once, in any order |
| `IndexIterators.Collect` | accounts-db/src/accounts_index.rs:572-586 | the first 1000 keys in range over the bins, or all of them |
| `RollingBitFields.RollingBitField.FindNext` | accounts-db/src/rolling_bit_field.rs:181-188 | the next key in the bits, or the end of the window |
| `RollingBitFields.RollingBitField.Len` | accounts-db/src/rolling_bit_field.rs:227-229 | the number of keys |
| `AppendVecs.WrittenIsSane` | accounts-db/src/append_vec.rs:157-180 | what is written for an account passes the checks on its flag and its lamports |
| `AppendVecs.SaneExactly` | accounts-db/src/append_vec.rs:157-180 | a record passes the checks exactly if storing some account gives what it says |
| `AppendVecs.AppendVec.Reset` | accounts-db/src/append_vec.rs:321-326 | the file has no records any more |
| `StorageRaces.StepKeepsReaders` | accounts-db/src/account_storage.rs:55-68 | any store that is returned has the id that was asked for |
| `StorageRaces.LookupsAreFew` | accounts-db/src/account_storage.rs:55-68 | a reader makes at most three lookups |
| `Partitions.PartitionIsQuotient` | accounts-db/src/accounts_partition.rs:331-345 | the adjusted division is the plain one, except for the last prefix |
| `Locks.AccountLocks.InUse` | accounts-db/src/accounts.rs:534-546 | in use exactly if some holder clashes |
| `Locks.BatchAddsTheGranted` | accounts-db/src/accounts.rs:608-624 | a batch adds the transactions that were granted, and nothing else |
| `BlockhashQueues.BlockhashQueue.LastHash` | accounts-db/src/blockhash_queue.rs:50-52 | the hash registered last; a panic exactly if there is none |
| `BlockhashQueues.BlockhashQueue.GetLamportsPerSignature` | accounts-db/src/blockhash_queue.rs:54-58 | the fee of the latest registration, at least for every recent hash |

## Left out

- Files, memory maps, temporary files and retries: a mapped file is a byte array of fixed size, a hash file a bounded sequence.
- Threads of the hash calculation: a parallel fold is any tree of splits over the bins; what each bin does is sequential.
- Hash functions, the clock and the bank forks are parameters or steps of the environment.
- Overflow of `fanout^4` on `usize` in the chunk calculation, and of 64-bit counters of registrations, read locks and slots plus one (`RollingBitField.Insert` takes keys below the last one).
- Merkle.ComputeMerkleRootFromSlices: a fanout of 0 (a panic in the source) or 1 (no end) and a level count of 0 (an underflow) are excluded by preconditions.
- Scans.ScanIsolation: flushing the write cache moves an account of a rooted slot to a store without changing it; the writes of the model do not touch slots that a good scan sees, so this step is not among them.
- Scans.ScanIsolation: the removal of keys whose last version has no lamports, and the reference counts behind it.
- Secondary indexes, the disk index and the in-memory cache of the index: the primary index is a map from keys to lists.
- IndexIterators.AccountsIndexIterator.Next: the entry that the source returns beside each key is a handle to the list of the key; here the list is read under the key, later, in `WholeScans.ReadList`.
- WholeScans.ScanAccounts: a scan that is aborted by its caller, and scans by a secondary index; what the caller does with each account is not modelled.
- ScanLimits.CleanBoundIsExact: the write cache is not flushed during the run, so a cached entry of a root stays cached; without a bound, at least two more slot numbers are left above the newest root.
- Duplicates.RemoveOlderDuplicatePubkeys: the library's stable sort is an insertion sort here; the vector that is shrunk at the end is an array and a slice of it.
- StorageRaces.RegisteredStoreIsFound: a state machine on values, since its subject is the interleaving of single map operations.
- AppendVecs.AppendVec.AppendAccounts: skipping more accounts than there are, an underflow in the source, is excluded by a precondition.
- AppendVecs.AppendVec.AppendPtr: the copy of one value is one step; readers between two bytes of a copy see the same published part.
- Not modelled at all: `account_matches_owners`, tiered storage, the write cache, the slot-to-partition helpers `get_partition_from_slot_indexes` and `lowest_pubkey_from_bin`, snapshots and statistics.
