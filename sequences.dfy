/**
  Sequences of strings: duplicates, sortedness under Python's string order,
  the sort that `sorted` performs, and removal of one name from a listing.
 */
module Sequences {
  import opened Text

  ghost predicate NoDup(s: seq<string>) {
    forall i, j :: 0 <= i < j < |s| ==> s[i] != s[j]
  }

  /** Ascending in Python's string order. */
  ghost predicate Sorted(s: seq<string>) {
    forall i, j :: 0 <= i < j < |s| ==> LexLe(s[i], s[j])
  }

  /** A name not yet in a duplicate-free listing can be put in front of it. */
  lemma ConsNoDup(x: string, s: seq<string>)
    ensures NoDup(s) && x !in s ==> NoDup([x] + s)
  {
  }

  /** Putting `x` in front of a sorted `s` keeps it sorted when `x` is no greater than its head. */
  lemma SortedCons(x: string, s: seq<string>)
    requires Sorted(s)
    requires s != [] ==> LexLe(x, s[0])
    ensures Sorted([x] + s)
  {
    forall k | 0 <= k < |s|
      ensures LexLe(x, s[k])
    {
      if k > 0 {
        LexLeTransitive(x, s[0], s[k]);
      }
    }
  }

  /** Inserts `x` into the sorted `s` before the first element not smaller than it. */
  function Insert(x: string, s: seq<string>): (r: seq<string>)
    requires Sorted(s)
    ensures Sorted(r)
    ensures multiset(r) == multiset(s) + multiset{x}
    ensures NoDup(s) && x !in s ==> NoDup(r)
  {
    if s == [] then [x]
    else if LexLe(x, s[0]) then
      SortedCons(x, s);
      ConsNoDup(x, s);
      [x] + s
    else
      LexLeTotal(x, s[0]);
      assert s == [s[0]] + s[1..];
      var t := Insert(x, s[1..]);
      InsertHeadBound(x, s, t);
      SortedCons(s[0], t);
      assert multiset([s[0]] + t) == multiset{s[0]} + multiset(t);
      ConsNoDup(s[0], t);
      [s[0]] + t
  }

  /** The head of a sorted `s` is no greater than anything built from its tail and a larger `x`. */
  lemma InsertHeadBound(x: string, s: seq<string>, t: seq<string>)
    requires Sorted(s) && s != [] && LexLe(s[0], x)
    requires multiset(t) == multiset(s[1..]) + multiset{x}
    ensures t != [] ==> LexLe(s[0], t[0])
    ensures NoDup(s) && x !in s ==> s[0] !in t
  {
    if t != [] {
      assert t[0] in multiset(t);
      if t[0] != x {
        assert t[0] in multiset(s[1..]);
        var k :| 0 <= k < |s[1..]| && s[1..][k] == t[0];
        assert s[k + 1] == t[0];
      }
    }
    if NoDup(s) && x !in s {
      assert s[0] !in s[1..];
      assert s[0] != x;
      assert multiset(t)[s[0]] == 0;
    }
  }

  /** Python's `sorted` on a list of strings, as an insertion sort: the result is
      sorted and a permutation of the input. */
  function Sort(s: seq<string>): (r: seq<string>)
    ensures Sorted(r)
    ensures multiset(r) == multiset(s)
    ensures NoDup(s) ==> NoDup(r)
  {
    if s == [] then []
    else
      assert s == [s[0]] + s[1..];
      var t := Sort(s[1..]);
      assert NoDup(s) ==> s[0] !in multiset(t);
      Insert(s[0], t)
  }

  /** A sorted permutation is unique: any algorithm that sorts (Python's own
      included) yields the same list as `Sort`. */
  lemma {:induction false} SortedUnique(a: seq<string>, b: seq<string>)
    requires Sorted(a) && Sorted(b)
    requires multiset(a) == multiset(b)
    ensures a == b
    decreases |a|
  {
    if a != [] {
      assert |b| == |multiset(b)| == |multiset(a)| == |a|;
      assert a == [a[0]] + a[1..];
      assert b == [b[0]] + b[1..];
      assert a[0] in multiset(b);
      var i :| 0 <= i < |b| && b[i] == a[0];
      assert LexLe(b[0], a[0]) by {
        if i > 0 { } else { LexLeReflexive(a[0]); }
      }
      assert b[0] in multiset(a);
      var j :| 0 <= j < |a| && a[j] == b[0];
      assert LexLe(a[0], b[0]) by {
        if j > 0 { } else { LexLeReflexive(b[0]); }
      }
      LexLeAntisymmetric(a[0], b[0]);
      assert multiset(a[1..]) == multiset(a) - multiset{a[0]};
      assert multiset(b[1..]) == multiset(b) - multiset{b[0]};
      SortedUnique(a[1..], b[1..]);
    }
  }

  /** Permutations have the same members. */
  lemma SameMembers(a: seq<string>, b: seq<string>)
    requires multiset(a) == multiset(b)
    ensures forall x :: x in a <==> x in b
  {
    forall x
      ensures x in a <==> x in b
    {
      assert x in a <==> x in multiset(a);
      assert x in b <==> x in multiset(b);
    }
  }

  /** `s` with every occurrence of `x` taken out, the others kept in order. */
  function Without(s: seq<string>, x: string): (r: seq<string>)
    ensures forall y :: y in r <==> y in s && y != x
    ensures NoDup(s) ==> NoDup(r)
    ensures x !in s ==> r == s
  {
    if s == [] then []
    else
      assert s == [s[0]] + s[1..];
      if s[0] == x then Without(s[1..], x)
      else
        var t := Without(s[1..], x);
        ConsNoDup(s[0], t);
        [s[0]] + t
  }
}
