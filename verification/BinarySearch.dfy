/** The binary search of Rust's slices, on the comparison results of the elements with the target. */
module BinarySearch {

  datatype Ordering = Less | Equal | Greater

  /** `Ok` of a matching position, or `Err` of the position where a match could be inserted. */
  datatype SearchResult = Ok(index: nat) | Err(index: nat)

  function Compare(x: int, y: int): Ordering {
    if x < y then Less else if x == y then Equal else Greater
  }

  predicate Precedes(a: Ordering, b: Ordering) {
    a.Less? || b.Greater? || a == b
  }

  /** The elements are sorted consistently with the comparison. */
  predicate Sorted(cmp: seq<Ordering>) {
    forall i, j :: 0 <= i < j < |cmp| ==> Precedes(cmp[i], cmp[j])
  }

  /** What is promised of a search: a match, or the only place where one could go. */
  predicate Finds(cmp: seq<Ordering>, r: SearchResult) {
    match r
    case Ok(index) => index < |cmp| && cmp[index].Equal?
    case Err(index) =>
      && index <= |cmp|
      && (forall i :: 0 <= i < index ==> cmp[i].Less?)
      && (forall i :: index <= i < |cmp| ==> cmp[i].Greater?)
  }

  function BinarySearchBy(cmp: seq<Ordering>): (r: SearchResult)
    requires Sorted(cmp)
    ensures Finds(cmp, r)
  {
    Search(cmp, 0, |cmp|)
  }

  function Search(cmp: seq<Ordering>, lo: nat, hi: nat): (r: SearchResult)
    requires Sorted(cmp) && lo <= hi <= |cmp|
    requires forall i :: 0 <= i < lo ==> cmp[i].Less?
    requires forall i :: hi <= i < |cmp| ==> cmp[i].Greater?
    ensures Finds(cmp, r)
    decreases hi - lo
  {
    if lo == hi then Err(lo)
    else
      var mid := lo + (hi - lo) / 2;
      match cmp[mid]
      case Less => Search(cmp, mid + 1, hi)
      case Greater => Search(cmp, lo, mid)
      case Equal => Ok(mid)
  }
}
