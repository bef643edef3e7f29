/**
 A set of slots kept in a window of bits that moves up, with the few that fall out of the window kept
 aside. It stands for a set, except in one case that is told apart exactly.
 */
module RollingBitFields {
  import opened Wrappers
  import opened Arith
  import opened Pubkeys
  import opened SortedSets

  /** The bit that a key has, counting around the window. */
  function Address(key: nat, width: nat): (a: nat)
    requires width > 0
    ensures a < width
  {
    if key < width then key else Address(key - width, width)
  }

  lemma {:induction false} AddressIsRemainder(key: nat, width: nat)
    requires width > 0
    ensures Address(key, width) == key % width
    decreases key
  {
    if key >= width {
      AddressIsRemainder(key - width, width);
      DivMod(key, width);
      DivMod(key - width, width);
      MulSucc((key - width) / width, width);
      DivUnique(key, width, (key - width) / width + 1);
    } else {
      DivUnique(key, width, 0);
      DivMod(key, width);
    }
  }

  /** Two keys of one window have different addresses. */
  lemma AddressesDiffer(x: nat, y: nat, width: nat)
    requires width > 0 && Address(x, width) == Address(y, width) && x < y + width && y < x + width
    ensures x == y
  {
    AddressIsRemainder(x, width);
    AddressIsRemainder(y, width);
    if x < y {
      ModGap(x, y, width);
    } else if y < x {
      ModGap(y, x, width);
    }
  }

  /** The bits say which keys of the window are there. */
  ghost predicate Shows(bits: seq<bool>, min: nat, maxExclusive: nat, keys: set<nat>) {
    && |bits| > 0 && min <= maxExclusive <= min + |bits|
    && (forall k :: k in keys ==> min <= k < maxExclusive && bits[Address(k, |bits|)])
    && (forall a :: 0 <= a < |bits| && bits[a] ==> exists k :: k in keys && Address(k, |bits|) == a)
  }

  lemma BitIsMembership(bits: seq<bool>, min: nat, maxExclusive: nat, keys: set<nat>, key: nat)
    requires Shows(bits, min, maxExclusive, keys) && min <= key < min + |bits| && key < maxExclusive + |bits|
    ensures bits[Address(key, |bits|)] <==> key in keys
  {
    if bits[Address(key, |bits|)] {
      var k :| k in keys && Address(k, |bits|) == Address(key, |bits|);
      AddressesDiffer(k, key, |bits|);
    }
  }

  /** Setting the bit of a key. */
  lemma BitIsSet(bits: seq<bool>, min: nat, maxExclusive: nat, keys: set<nat>, key: nat, min': nat, maxExclusive': nat)
    requires Shows(bits, min, maxExclusive, keys)
    requires min' <= key < maxExclusive' <= min' + |bits|
    requires keys != {} ==> min' <= min && maxExclusive <= maxExclusive'
    ensures Shows(bits[Address(key, |bits|) := true], min', maxExclusive', keys + {key})
  {
    var bits' := bits[Address(key, |bits|) := true];
    forall a | 0 <= a < |bits| && bits'[a]
      ensures exists k :: k in keys + {key} && Address(k, |bits|) == a
    {
      if a == Address(key, |bits|) {
        assert key in keys + {key};
      } else {
        var k :| k in keys && Address(k, |bits|) == a;
        assert k in keys + {key};
      }
    }
  }

  /** Clearing the bit of a key. */
  lemma BitIsCleared(bits: seq<bool>, min: nat, maxExclusive: nat, keys: set<nat>, key: nat)
    requires Shows(bits, min, maxExclusive, keys) && key in keys
    ensures Shows(bits[Address(key, |bits|) := false], min, maxExclusive, keys - {key})
  {
    var bits' := bits[Address(key, |bits|) := false];
    forall k | k in keys - {key}
      ensures bits'[Address(k, |bits|)]
    {
      if Address(k, |bits|) == Address(key, |bits|) {
        AddressesDiffer(k, key, |bits|);
      }
    }
    forall a | 0 <= a < |bits| && bits'[a]
      ensures exists k :: k in keys - {key} && Address(k, |bits|) == a
    {
      var k :| k in keys && Address(k, |bits|) == a;
      assert k in keys - {key};
    }
  }

  // ---------------------------------------------------------------- the state, as values

  /**
   `inBits` are the keys in the bits, `min` the least of them; those in `excess` are less. While the
   bits are empty, the window is too.
   */
  ghost predicate Good(bits: seq<bool>, min: nat, maxExclusive: nat, excess: set<nat>, count: nat, inBits: set<nat>) {
    && Shows(bits, min, maxExclusive, inBits) && count == |excess| + |inBits|
    && (forall k :: k in excess ==> k < min)
    && (if inBits == {} then min == maxExclusive else min in inBits)
  }

  /** After `key` has left the bits, and before `min` has been moved up. */
  ghost predicate Loose(bits: seq<bool>, min: nat, maxExclusive: nat, excess: set<nat>, count: nat, inBits: set<nat>, key: nat) {
    && Shows(bits, min, maxExclusive, inBits) && count == |excess| + |inBits|
    && (forall k :: k in excess ==> k < min || k == min == key)
    && min <= key < maxExclusive && key !in inBits && (key != min ==> min in inBits)
  }

  lemma KeyLeaves(bits: seq<bool>, min: nat, maxExclusive: nat, excess: set<nat>, count: nat, inBits: set<nat>, key: nat)
    requires Good(bits, min, maxExclusive, excess, count, inBits) && key in inBits
    ensures count > 0 && Loose(bits[Address(key, |bits|) := false], min, maxExclusive, excess, count - 1, inBits - {key}, key)
  {
    BitIsCleared(bits, min, maxExclusive, inBits, key);
  }

  lemma MinMoves(bits: seq<bool>, min: nat, maxExclusive: nat, excess: set<nat>, count: nat, inBits: set<nat>)
    requires Good(bits, min, maxExclusive, excess, count, inBits) && inBits != {}
    ensures Loose(bits[Address(min, |bits|) := false], min, maxExclusive, excess + {min}, count, inBits - {min}, min)
  {
    BitIsCleared(bits, min, maxExclusive, inBits, min);
  }

  lemma NextIsMin(bits: seq<bool>, min: nat, maxExclusive: nat, excess: set<nat>, count: nat, inBits: set<nat>, next: nat)
    requires Loose(bits, min, maxExclusive, excess, count, inBits, min) && min < next <= maxExclusive
    requires forall k :: min < k < next ==> k !in inBits
    requires if inBits == {} then next == maxExclusive else next in inBits
    ensures Good(bits, next, maxExclusive, excess, count, inBits)
  {
  }

  lemma OnlyKeyIsSet(bits: seq<bool>, min: nat, maxExclusive: nat, excess: set<nat>, count: nat, key: nat)
    requires Good(bits, min, maxExclusive, excess, count, {}) && forall k :: k in excess ==> k < key
    ensures Good(bits[Address(key, |bits|) := true], key, key + 1, excess, count + 1, {key})
  {
    BitIsSet(bits, min, maxExclusive, {}, key, key, key + 1);
    var none: set<nat> := {};
    assert none + {key} == {key};
  }

  lemma KeyIsSet(bits: seq<bool>, min: nat, maxExclusive: nat, excess: set<nat>, count: nat, inBits: set<nat>, key: nat, max': nat)
    requires Good(bits, min, maxExclusive, excess, count, inBits) && inBits != {} && min <= key < min + |bits|
    requires max' == if maxExclusive < key + 1 then key + 1 else maxExclusive
    ensures bits[Address(key, |bits|)] <==> key in inBits
    ensures key !in inBits ==> Good(bits[Address(key, |bits|) := true], min, max', excess, count + 1, inBits + {key})
  {
    BitIsMembership(bits, min, maxExclusive, inBits, key);
    BitIsSet(bits, min, maxExclusive, inBits, key, min, max');
  }

  lemma ItemsGrow(excess: set<nat>, inBits: set<nat>, key: nat)
    ensures excess + (inBits + {key}) == excess + inBits + {key}
  {
  }

  /** The answer of `contains`. */
  ghost predicate Has(bits: seq<bool>, min: nat, maxExclusive: nat, excess: set<nat>, key: nat)
    requires |bits| > 0
  {
    key < maxExclusive && if key >= min then bits[Address(key, |bits|)] else key in excess
  }

  lemma HasIsMembership(bits: seq<bool>, min: nat, maxExclusive: nat, excess: set<nat>, count: nat, inBits: set<nat>, key: nat)
    requires Good(bits, min, maxExclusive, excess, count, inBits)
    ensures Has(bits, min, maxExclusive, excess, key) <==> key in excess + inBits
  {
    if min <= key < maxExclusive {
      BitIsMembership(bits, min, maxExclusive, inBits, key);
    }
  }

  // ---------------------------------------------------------------- reading

  lemma EnumeratesOneMore(keys: seq<nat>, m: set<nat>, k: nat)
    requires Enumerates(keys, m) && k !in m
    ensures Enumerates(keys + [k], m + {k})
  {
  }

  method LeastOf(m: set<nat>) returns (least: nat)
    requires m != {}
    ensures IsLeast(least, m)
  {
    least :| least in m;
    var rest := m - {least};
    while rest != {}
      invariant rest <= m && least in m && forall x :: x in m && x !in rest ==> least <= x
      decreases |rest|
    {
      var k :| k in rest;
      rest := rest - {k};
      least := if k < least then k else least;
    }
  }

  /** The keys below a bound. */
  ghost function Below(m: set<nat>, bound: nat): set<nat> {
    set k | k in m && k < bound
  }

  method ListBelow(m: set<nat>, bound: nat) returns (keys: seq<nat>)
    ensures Enumerates(keys, Below(m, bound))
  {
    keys := [];
    var rest := m;
    while rest != {}
      invariant rest <= m && Enumerates(keys, Below(m - rest, bound))
      decreases |rest|
    {
      var k :| k in rest;
      rest := rest - {k};
      assert m - rest == m - (rest + {k}) + {k};
      if k < bound {
        EnumeratesOneMore(keys, Below(m - (rest + {k}), bound), k);
        assert Below(m - rest, bound) == Below(m - (rest + {k}), bound) + {k};
        keys := keys + [k];
      } else {
        assert Below(m - rest, bound) == Below(m - (rest + {k}), bound);
      }
    }
    assert m - rest == m;
  }

  /** `r` is the greatest member below the bound. */
  ghost predicate IsPrior(r: Option<nat>, m: set<nat>, bound: nat) {
    match r
    case None => forall k :: k in m ==> k >= bound
    case Some(slot) => slot in m && slot < bound && forall k :: k in m && k < bound ==> k <= slot
  }

  /** Slot 0 is the only candidate, and it is not looked at; or it is, although nothing is below the bound. */
  ghost predicate PriorFails(m: set<nat>, bound: nat) {
    0 in m && (bound == 0 || (bound >= 2 && forall k :: 0 < k < bound ==> k !in m))
  }

  /** The search has come down to `slot`, which is 0 only if it started there. */
  ghost predicate NothingAbove(m: set<nat>, slot: nat, bound: nat) {
    && (slot < bound || slot == bound == 0) && (slot == 0 ==> bound <= 1)
    && forall k :: slot < k < bound ==> k !in m
  }

  lemma PriorFound(m: set<nat>, slot: nat, bound: nat)
    requires NothingAbove(m, slot, bound) && slot in m
    ensures IsPrior(Some(slot), m, bound) <==> !PriorFails(m, bound)
  {
  }

  lemma PriorStep(m: set<nat>, slot: nat, bound: nat, least: nat)
    requires NothingAbove(m, slot, bound) && slot !in m && IsLeast(least, m)
    ensures slot <= 1 || slot - 1 < least ==> (IsPrior(None, m, bound) <==> !PriorFails(m, bound))
    ensures slot > 1 ==> NothingAbove(m, slot - 1, bound)
  {
    if slot <= 1 {
      assert forall k: nat :: k in m && k < bound ==> k == 0;
    }
  }

  /** The keys below the bound from the excess, and those below `key` from the bits. */
  ghost predicate Listed(all: seq<nat>, excess: set<nat>, bound: nat, inBits: set<nat>, key: nat) {
    Enumerates(all, Below(excess, bound) + Below(inBits, key))
  }

  lemma ListStart(all: seq<nat>, excess: set<nat>, bound: nat, inBits: set<nat>, min: nat)
    requires Enumerates(all, Below(excess, bound)) && forall k :: k in inBits ==> min <= k
    ensures Listed(all, excess, bound, inBits, min)
  {
    assert Below(excess, bound) + Below(inBits, min) == Below(excess, bound);
  }

  lemma ListStep(all: seq<nat>, excess: set<nat>, bound: nat, inBits: set<nat>, key: nat)
    requires Listed(all, excess, bound, inBits, key) && key !in excess
    ensures if key in inBits then Listed(all + [key], excess, bound, inBits, key + 1)
            else Listed(all, excess, bound, inBits, key + 1)
  {
    var before, after := Below(excess, bound) + Below(inBits, key), Below(excess, bound) + Below(inBits, key + 1);
    if key in inBits {
      assert after == before + {key};
      EnumeratesOneMore(all, before, key);
    } else {
      assert after == before;
    }
  }

  lemma ListEnd(all: seq<nat>, excess: set<nat>, bound: nat, inBits: set<nat>, key: nat)
    requires Listed(all, excess, bound, inBits, key)
    requires forall k :: k in inBits ==> (k < key <==> k < bound)
    ensures Enumerates(all, Below(excess + inBits, bound))
  {
    assert Below(excess, bound) + Below(inBits, key) == Below(excess + inBits, bound);
  }

  class RollingBitField {
    const maxWidth: nat
    var min: nat
    var maxExclusive: nat
    const bits: array<bool>
    var count: nat
    var excess: set<nat>

    /** The keys that are in the bits. */
    ghost var inBits: set<nat>

    ghost predicate Valid()
      reads this, bits
    {
      bits.Length == maxWidth && Good(bits[..], min, maxExclusive, excess, count, inBits)
    }

    /** The set that the bit field stands for. */
    ghost function Items(): set<nat>
      reads this
    {
      excess + inBits
    }

    constructor (maxWidth: nat)
      requires exists n: nat :: maxWidth == Pow2(n)
      ensures Valid() && Items() == {} && fresh(bits) && this.maxWidth == maxWidth
    {
      this.maxWidth := maxWidth;
      bits := new bool[maxWidth](i => false);
      count, min, maxExclusive, excess, inBits := 0, 0, 0, {}, {};
    }

    function GetAddress(key: nat): (a: nat)
      requires maxWidth > 0
      ensures a == Address(key, maxWidth)
    {
      AddressIsRemainder(key, maxWidth);
      key % maxWidth
    }

    predicate AllItemsInExcess()
      reads this
    {
      |excess| == count
    }

    predicate ContainsAssumeInRange(key: nat)
      requires bits.Length == maxWidth > 0
      reads bits
    {
      bits[GetAddress(key)]
    }

    predicate Contains(key: nat)
      requires bits.Length == maxWidth > 0
      reads this, bits
    {
      key < maxExclusive && if key >= min then ContainsAssumeInRange(key) else key in excess
    }

    lemma ContainsIsMembership(key: nat)
      requires Valid()
      ensures Contains(key) <==> key in Items()
    {
      HasIsMembership(bits[..], min, maxExclusive, excess, count, inBits, key);
    }

    /** The next key above `min` that is in the bits, or the end of the window. */
    method FindNext(ghost key: nat) returns (next: nat)
      requires bits.Length == maxWidth && Loose(bits[..], min, maxExclusive, excess, count, inBits, key)
      ensures min < next <= maxExclusive && (forall k :: min < k < next ==> k !in inBits)
      ensures next < maxExclusive ==> next in inBits
    {
      next := min + 1;
      while next < maxExclusive && !ContainsAssumeInRange(next)
        invariant min < next <= maxExclusive && forall k :: min < k < next ==> k !in inBits
      {
        BitIsMembership(bits[..], min, maxExclusive, inBits, next);
        next := next + 1;
      }
      if next < maxExclusive {
        BitIsMembership(bits[..], min, maxExclusive, inBits, next);
      }
    }

    /** `purge`: after a key left the bits, `min` is made the least of those that are still there. */
    method Purge(key: nat)
      requires bits.Length == maxWidth && Loose(bits[..], min, maxExclusive, excess, count, inBits, key)
      modifies this`min
      ensures Valid()
    {
      if count > 0 && !AllItemsInExcess() {
        if key == min {
          var next := FindNext(key);
          NextIsMin(bits[..], min, maxExclusive, excess, count, inBits, next);
          min := next;
        }
      } else {
        NextIsMin(bits[..], min, maxExclusive, excess, count, inBits, maxExclusive);
        min := maxExclusive;
      }
    }

    method ClearBit(key: nat)
      requires bits.Length == maxWidth > 0
      modifies bits
      ensures bits[..] == old(bits[..])[Address(key, maxWidth) := false]
    {
      bits[GetAddress(key)] := false;
    }

    method TakeFromBits(key: nat)
      requires Valid() && key in inBits
      modifies this`count, this`inBits, this`min, bits
      ensures Valid() && inBits == old(inBits) - {key}
    {
      KeyLeaves(bits[..], min, maxExclusive, excess, count, inBits, key);
      count := count - 1;
      ClearBit(key);
      inBits := inBits - {key};
      Purge(key);
    }

    method TakeFromExcess(key: nat)
      requires Valid() && key in excess
      modifies this`count, this`excess
      ensures Valid() && excess == old(excess) - {key}
    {
      excess := excess - {key};
      count := count - 1;
    }

    /** `remove`: takes the key out, and tells whether it was there. */
    method Remove(key: nat) returns (was: bool)
      requires Valid()
      modifies this, bits
      ensures Valid() && was == (key in old(Items())) && Items() == old(Items()) - {key}
      ensures excess == old(excess) - {key}
    {
      ContainsIsMembership(key);
      if key >= min {
        if key < maxExclusive {
          was := bits[GetAddress(key)];
          if was {
            TakeFromBits(key);
          }
        } else {
          was := false;
        }
      } else {
        was := key in excess;
        if was {
          TakeFromExcess(key);
        }
      }
    }

    /** The least key goes from the bits to the excess. */
    method MoveMin()
      requires Valid() && inBits != {}
      modifies this`min, this`excess, this`inBits, bits
      ensures Valid() && inBits == old(inBits) - {old(min)} && Items() == old(Items())
    {
      MinMoves(bits[..], min, maxExclusive, excess, count, inBits);
      var moved := min;
      excess := excess + {moved};
      ClearBit(moved);
      inBits := inBits - {moved};
      Purge(moved);
    }

    /** Makes the window wide enough for a key above it. */
    method MakeRoom(key: nat) returns (bitsEmpty: bool)
      requires Valid() && inBits != {} && key >= maxExclusive
      modifies this`min, this`excess, this`inBits, bits
      ensures Valid() && Items() == old(Items()) && bitsEmpty == (inBits == {})
      ensures if bitsEmpty then forall k :: k in excess ==> k < key else key + 1 - min <= maxWidth
    {
      bitsEmpty := false;
      var newMax := key + 1;
      while newMax - min > maxWidth
        invariant Valid() && Items() == old(Items()) && inBits != {}
        decreases |inBits|
      {
        MoveMin();
        if AllItemsInExcess() {
          bitsEmpty := true;
          return;
        }
      }
    }

    method SetBit(key: nat)
      requires bits.Length == maxWidth > 0
      modifies bits
      ensures bits[..] == old(bits[..])[Address(key, maxWidth) := true]
    {
      bits[GetAddress(key)] := true;
    }

    /** The key within the window. */
    method PutInWindow(key: nat)
      requires Valid() && inBits != {} && min <= key < min + maxWidth
      modifies this`min, this`maxExclusive, this`count, this`inBits, bits
      ensures Valid() && inBits == old(inBits) + {key}
    {
      var max' := if maxExclusive < key + 1 then key + 1 else maxExclusive;
      KeyIsSet(bits[..], min, maxExclusive, excess, count, inBits, key, max');
      if !bits[GetAddress(key)] {
        SetBit(key);
        min := if min < key then min else key;
        maxExclusive := max';
        assert min + maxWidth >= maxExclusive;
        count := count + 1;
        inBits := inBits + {key};
      }
    }

    /** The key as the only one in the bits, whatever is in the excess. */
    method PutAlone(key: nat)
      requires Valid() && inBits == {}
      modifies this`min, this`maxExclusive, this`count, this`inBits, bits
      ensures (forall k :: k in excess ==> k < key) ==> Valid()
      ensures inBits == old(inBits) + {key} && maxExclusive == key + 1 && count == old(count) + 1
    {
      if forall k :: k in excess ==> k < key {
        OnlyKeyIsSet(bits[..], min, maxExclusive, excess, count, key);
      }
      assert !bits[GetAddress(key)];
      SetBit(key);
      min, maxExclusive := key, key + 1;
      count := count + 1;
      inBits := {key};
    }

    /** The bit field answers like this set. */
    ghost predicate StandsFor(items: set<nat>)
      requires bits.Length == maxWidth > 0
      reads this, bits
    {
      (forall k: nat :: Contains(k) <==> k in items) && count == |items|
    }

    /** Nothing is in the bits, although something in the excess is not below the key. */
    ghost predicate Forgets(key: nat)
      reads this
    {
      AllItemsInExcess() && exists k :: k in excess && k >= key
    }

    lemma ValidStandsForItems()
      requires Valid()
      ensures StandsFor(Items())
    {
      forall k: nat
        ensures Contains(k) <==> k in Items()
      {
        ContainsIsMembership(k);
      }
      assert excess !! inBits;
    }

    /** A key above the window. */
    method InsertAbove(key: nat)
      requires Valid() && inBits != {} && key >= maxExclusive
      modifies this, bits
      ensures Valid() && Items() == old(Items()) + {key}
    {
      var emptied := MakeRoom(key);
      ItemsGrow(excess, inBits, key);
      if emptied {
        PutAlone(key);
      } else {
        PutInWindow(key);
      }
    }

    /** A key while there are others in the bits. */
    method InsertBeside(key: nat)
      requires Valid() && inBits != {}
      modifies this, bits
      ensures Valid() && Items() == old(Items()) + {key}
    {
      if key < min {
        if key !in excess {
          excess := excess + {key};
          count := count + 1;
        }
      } else if key < maxExclusive {
        PutInWindow(key);
      } else {
        InsertAbove(key);
      }
    }

    /** `insert`: like the insertion into a set, except exactly when the bit field forgets. */
    method Insert(key: nat)
      requires Valid() && key < U64_MAX
      modifies this, bits
      ensures !old(Forgets(key)) ==> Valid() && Items() == old(Items()) + {key}
      ensures bits.Length == maxWidth > 0
      ensures StandsFor(old(Items()) + {key}) <==> !old(Forgets(key))
      ensures old(Forgets(key)) ==> forall k: nat :: k > key ==> !Contains(k)
    {
      var bitsEmpty := count == 0 || AllItemsInExcess();
      if bitsEmpty {
        PutAlone(key);
      } else {
        InsertBeside(key);
      }
      if old(Forgets(key)) {
        assert old(Items()) == old(excess);
        ForgottenIsNotThere(old(excess), key);
      } else {
        ValidStandsForItems();
      }
    }

    lemma ForgottenIsNotThere(before: set<nat>, key: nat)
      requires bits.Length == maxWidth > 0 && maxExclusive == key + 1 && count == |before| + 1
      requires exists k :: k in before && k >= key
      ensures !StandsFor(before + {key})
    {
      var k :| k in before && k >= key;
      if k > key {
        assert !Contains(k);
      } else {
        assert before + {key} == before;
      }
    }
  
    method Len() returns (n: nat)
      requires Valid()
      ensures n == |Items()|
    {
      assert excess !! inBits;
      n := count;
    }

    /** `min`: the least key, wherever it is. */
    method Min() returns (r: Option<nat>)
      requires Valid()
      ensures r.None? <==> Items() == {}
      ensures r.Some? ==> IsLeast(r.value, Items())
    {
      if count == 0 {
        return None;
      } else if excess == {} {
        return Some(min);
      }
      var excessMin := LeastOf(excess);
      if AllItemsInExcess() {
        r := Some(excessMin);
      } else {
        r := Some(if min < excessMin then min else excessMin);
      }
    }

    /** `get_all_less_than`: first those in the excess, then those in the bits. */
    method GetAllLessThan(bound: nat) returns (all: seq<nat>)
      requires Valid()
      ensures Enumerates(all, Below(Items(), bound))
    {
      all := ListBelow(excess, bound);
      ListStart(all, excess, bound, inBits, min);
      var key := min;
      while key < maxExclusive && key < bound
        invariant min <= key <= maxExclusive && (key <= bound || key == min)
        invariant Listed(all, excess, bound, inBits, key)
      {
        BitIsMembership(bits[..], min, maxExclusive, inBits, key);
        ListStep(all, excess, bound, inBits, key);
        if ContainsAssumeInRange(key) {
          all := all + [key];
        }
        key := key + 1;
      }
      ListEnd(all, excess, bound, inBits, key);
    }

    /** `get_prior`: the greatest key below the bound, except exactly when slot 0 gets in the way. */
    method GetPrior(bound: nat) returns (r: Option<nat>)
      requires Valid()
      ensures IsPrior(r, Items(), bound) <==> !PriorFails(Items(), bound)
    {
      var slot: nat := if bound == 0 then 0 else bound - 1;
      var least := Min();
      if least.None? {
        return None;
      }
      while true
        invariant NothingAbove(Items(), slot, bound)
        decreases slot
      {
        ContainsIsMembership(slot);
        if Contains(slot) {
          PriorFound(Items(), slot, bound);
          return Some(slot);
        }
        PriorStep(Items(), slot, bound, least.value);
        slot := if slot == 0 then 0 else slot - 1;
        if slot == 0 || slot < least.value {
          break;
        }
      }
      return None;
    }
  
    /** Keys that only grow, as roots do, are never forgotten. */
    lemma NewestIsNotForgotten(key: nat)
      requires Valid() && forall k :: k in Items() ==> k < key
      ensures !Forgets(key)
    {
      assert forall k :: k in excess ==> k in Items();
    }
  }

  /**
   The case that differs from a set: with a window of four, slots 5 and 100 are inserted and 100 is
   removed, so that 5 is in the excess and the bits are empty. After the insertion of 3, slot 5 is not found.
   */
  method ForgottenSlot() returns (before: bool, after: bool)
    ensures before && !after
  {
    assert Pow2(2) == 4;
    var field := new RollingBitField(4);
    field.Insert(5);
    field.Insert(100);
    var _ := field.Remove(100);
    assert 5 in field.excess && field.AllItemsInExcess();
    field.ContainsIsMembership(5);
    before := field.Contains(5);
    field.Insert(3);
    after := field.Contains(5);
  }

  /** And the other one: slot 0 is below any bound above it, but not found from there. */
  lemma PriorOfZero(bound: nat)
    requires bound >= 2
    ensures IsPrior(Some(0), {0}, bound) && PriorFails({0}, bound)
  {
  }
}
