/**
 `AccountInfo`: where an account is stored, packed into 32 bits beside the store id. Offsets are
 multiples of 8, so 31 bits reach 16 GiB; the largest 31-bit value stands for the write cache.
 */
module AccountInfos {
  import opened Wrappers

  const ALIGN_BOUNDARY_OFFSET: nat := 8

  /** 2 to the power of 31: one past the largest offset that the packed field holds. */
  const OFFSET_REDUCED_LIMIT: nat := 0x8000_0000
  const CACHED_OFFSET: nat := 0x7fff_ffff

  const U32_LIMIT: nat := 0x1_0000_0000
  const CACHE_VIRTUAL_STORAGE_ID: nat := 0xffff_ffff

  datatype StorageLocation = AppendVec(storeId: nat, offset: nat) | Cached

  /** `packed`: the reduced offset in the low 31 bits, the zero-lamport flag above them. */
  datatype AccountInfo = AccountInfo(storeId: nat, packed: nat) {

    ghost predicate Valid() {
      packed < U32_LIMIT
    }

    function OffsetReduced(): nat {
      packed % OFFSET_REDUCED_LIMIT
    }

    predicate IsZeroLamport() {
      packed / OFFSET_REDUCED_LIMIT % 2 == 1
    }

    predicate IsCached() {
      OffsetReduced() == CACHED_OFFSET
    }

    function Offset(): nat {
      OffsetReduced() * ALIGN_BOUNDARY_OFFSET
    }

    function Location(): StorageLocation {
      if IsCached() then Cached else AppendVec(storeId, Offset())
    }
  }

  /** The division is done on 64 bits and then cut down to 32. */
  function ReducedOffset(offset: nat): nat {
    offset / ALIGN_BOUNDARY_OFFSET % U32_LIMIT
  }

  function Packed(reduced: nat, zeroLamport: bool): nat {
    reduced + if zeroLamport then OFFSET_REDUCED_LIMIT else 0
  }

  /** `AccountInfo::new`: the assertions and the range check of the bit field become panics. */
  function NewAccountInfo(location: StorageLocation, lamports: nat): (r: Outcome<AccountInfo>) {
    match location
    case Cached => Returned(AccountInfo(CACHE_VIRTUAL_STORAGE_ID, Packed(CACHED_OFFSET, lamports == 0)))
    case AppendVec(storeId, offset) =>
      var reduced := ReducedOffset(offset);
      if reduced == CACHED_OFFSET then Panicked
      else if reduced >= OFFSET_REDUCED_LIMIT then Panicked
      else if reduced * ALIGN_BOUNDARY_OFFSET != offset then Panicked
      else Returned(AccountInfo(storeId, Packed(reduced, lamports == 0)))
  }

  /** The locations that can be packed: aligned offsets below the sentinel. */
  predicate Representable(location: StorageLocation) {
    location.AppendVec? ==>
      location.offset % ALIGN_BOUNDARY_OFFSET == 0 && location.offset < CACHED_OFFSET * ALIGN_BOUNDARY_OFFSET
  }

  /** Exactly the representable locations can be packed, and they come back unchanged. */
  lemma PackingIsExact(location: StorageLocation, lamports: nat)
    ensures NewAccountInfo(location, lamports).Returned? <==> Representable(location)
    ensures NewAccountInfo(location, lamports).Returned? ==>
              var info := NewAccountInfo(location, lamports).value;
              && info.Valid()
              && info.Location() == location
              && info.IsCached() == location.Cached?
              && info.IsZeroLamport() == (lamports == 0)
  {
    if location.AppendVec? {
      var q := location.offset / ALIGN_BOUNDARY_OFFSET;
      var reduced := ReducedOffset(location.offset);
      assert q == reduced + U32_LIMIT * (q / U32_LIMIT);
    }
  }

  /** Distinct locations are never packed alike. */
  lemma PackingIsInjective(a: StorageLocation, b: StorageLocation, x: nat, y: nat)
    requires Representable(a) && Representable(b)
    requires NewAccountInfo(a, x) == NewAccountInfo(b, y)
    ensures a == b && (x == 0 <==> y == 0)
  {
    PackingIsExact(a, x);
    PackingIsExact(b, y);
  }
}
