/** Finite sets of numbers listed in ascending order. */
module SortedSets {

  ghost predicate StrictlyIncreasing(s: seq<nat>) {
    forall i, j :: 0 <= i < j < |s| ==> s[i] < s[j]
  }

  /** `s` lists exactly the members of `m`, smallest first. */
  ghost predicate Lists(s: seq<nat>, m: set<nat>) {
    StrictlyIncreasing(s) && forall x :: x in s <==> x in m
  }

  /** `s` has each member of `m` once, in any order. */
  ghost predicate Enumerates(s: seq<nat>, m: set<nat>) {
    (forall x :: x in s <==> x in m) && forall i, j :: 0 <= i < j < |s| ==> s[i] != s[j]
  }

  ghost predicate IsLeast(x: nat, m: set<nat>) {
    x in m && forall y :: y in m ==> x <= y
  }

  lemma {:induction false} LeastExists(m: set<nat>) returns (least: nat)
    requires m != {}
    ensures IsLeast(least, m)
    decreases m
  {
    var x :| x in m;
    least := x;
    if m - {x} != {} {
      var z := LeastExists(m - {x});
      least := if x < z then x else z;
    }
    forall y | y in m
      ensures least <= y
    {
      assert y == x || y in m - {x};
    }
  }

  /** The least member, or 0 of the empty set. */
  ghost function Least(m: set<nat>): nat {
    if x: nat :| IsLeast(x, m) then x else 0
  }

  lemma LeastIsLeast(m: set<nat>)
    requires m != {}
    ensures IsLeast(Least(m), m)
  {
    var least := LeastExists(m);
  }

  /** The `n` least members, smallest first. */
  ghost function Leading(m: set<nat>, n: nat): seq<nat> {
    if n == 0 then [] else [Least(m)] + Leading(m - {Least(m)}, n - 1)
  }

  /** The members of a set, smallest first. */
  ghost function Ascending(m: set<nat>): seq<nat> {
    Leading(m, |m|)
  }

  lemma {:induction false} AscendingLists(m: set<nat>)
    ensures Lists(Ascending(m), m) && |Ascending(m)| == |m|
    decreases m
  {
    if m != {} {
      LeastIsLeast(m);
      AscendingLists(m - {Least(m)});
      ConsLists(Least(m), Ascending(m - {Least(m)}), m);
    }
  }

  lemma ConsLists(x: nat, rest: seq<nat>, m: set<nat>)
    requires IsLeast(x, m) && Lists(rest, m - {x})
    ensures Lists([x] + rest, m)
  {
    var s := [x] + rest;
    assert forall y :: y in s <==> y == x || y in rest;
    forall i, j | 0 <= i < j < |s|
      ensures s[i] < s[j]
    {
      assert s[j] == rest[j - 1] && rest[j - 1] in rest;
      if i > 0 {
        assert s[i] == rest[i - 1];
      }
    }
  }

  /** There is only one such list. */
  lemma {:induction false} AscendingUnique(s: seq<nat>, t: seq<nat>, m: set<nat>)
    requires Lists(s, m) && Lists(t, m)
    ensures s == t
    decreases |s|
  {
    if s == [] || t == [] {
      SomeMember(s, t);
      SomeMember(t, s);
    } else {
      assert s[0] in t;
      assert t[0] in s;
      assert s[0] == t[0];
      var m' := m - {s[0]};
      TailLists(s, m);
      TailLists(t, m);
      AscendingUnique(s[1..], t[1..], m');
      assert s == [s[0]] + s[1..] && t == [t[0]] + t[1..];
    }
  }

  lemma SomeMember(s: seq<nat>, t: seq<nat>)
    requires forall x :: x in s ==> x in t
    ensures s != [] ==> t != []
  {
    if s != [] {
      assert s[0] in s;
    }
  }

  lemma TailLists(s: seq<nat>, m: set<nat>)
    requires Lists(s, m) && s != []
    ensures Lists(s[1..], m - {s[0]})
  {
    assert forall x :: x in s <==> x == s[0] || x in s[1..];
  }

  lemma ConcatLists(s: seq<nat>, t: seq<nat>, a: set<nat>, b: set<nat>)
    requires Lists(s, a) && Lists(t, b) && forall x, y :: x in a && y in b ==> x < y
    ensures Lists(s + t, a + b)
  {
    forall i, j | 0 <= i < j < |s + t|
      ensures (s + t)[i] < (s + t)[j]
    {
      if i < |s| <= j {
        assert s[i] in s && t[j - |s|] in t;
      }
    }
    assert forall x :: x in s + t <==> x in s || x in t;
  }

  /** Listing two sets, one below the other, one after the other. */
  lemma AscendingUnion(a: set<nat>, b: set<nat>)
    requires forall x, y :: x in a && y in b ==> x < y
    ensures Ascending(a + b) == Ascending(a) + Ascending(b)
  {
    AscendingLists(a);
    AscendingLists(b);
    AscendingLists(a + b);
    ConcatLists(Ascending(a), Ascending(b), a, b);
    AscendingUnique(Ascending(a + b), Ascending(a) + Ascending(b), a + b);
  }

  /** The first `n` members are behind us, and `cut` is the last of them. */
  ghost predicate Passed(m: set<nat>, n: nat, cut: int) {
    n <= |Ascending(m)| && cut == if n == 0 then -1 else Ascending(m)[n - 1]
  }

  /** The members above `cut` are the remaining ones. */
  lemma PassedRest(m: set<nat>, n: nat, cut: int)
    requires Passed(m, n, cut)
    ensures forall x :: x in m && x > cut <==> x in Ascending(m)[n..]
  {
    var s := Ascending(m);
    AscendingLists(m);
    forall x
      ensures x in m && x > cut <==> x in s[n..]
    {
      if x in m && x > cut {
        var i :| 0 <= i < |s| && s[i] == x;
        assert i >= n;
        assert s[n..][i - n] == x;
      }
    }
  }

  /** The least member above `cut` is listed next. */
  lemma LeastIsNext(m: set<nat>, n: nat, cut: int, k: nat)
    requires Passed(m, n, cut)
    requires k in m && k > cut && forall x :: x in m && x > cut ==> k <= x
    ensures n < |Ascending(m)| && Ascending(m)[n] == k && Passed(m, n + 1, k)
  {
    var s := Ascending(m);
    AscendingLists(m);
    PassedRest(m, n, cut);
    var i :| 0 <= i < |s[n..]| && s[n..][i] == k;
    assert s[n..][0] == s[n];
    assert s[n] in s[n..];
    assert k <= s[n];
  }

  /** No member above `cut` means that all are listed. */
  lemma NoneIsNext(m: set<nat>, n: nat, cut: int)
    requires Passed(m, n, cut) && forall x :: x in m ==> x <= cut
    ensures n == |Ascending(m)|
  {
    PassedRest(m, n, cut);
    SomeMember(Ascending(m)[n..], []);
  }
}
