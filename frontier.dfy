/** The frontier ordering: nodes are ranked by `f = g + h`, the open list is
    sorted by descending `f`, and its last element is then a minimum-`f` node. */
module Frontier {

  /** Every listed node has a `g` and an `h` entry. */
  ghost predicate Indexed(s: seq<nat>, g: seq<real>, h: seq<real>) {
    forall i :: 0 <= i < |s| ==> s[i] < |g| && s[i] < |h|
  }

  function FValue(g: seq<real>, h: seq<real>, v: nat): real
    requires v < |g| && v < |h|
  {
    g[v] + h[v]
  }

  /** The sort comparator: `a` goes before `b` when its `f` is larger. */
  predicate Compare(g: seq<real>, h: seq<real>, a: nat, b: nat)
    requires a < |g| && a < |h| && b < |g| && b < |h|
  {
    FValue(g, h, a) > FValue(g, h, b)
  }

  /** The order `std::sort` establishes with `Compare`: no later element
      compares before an earlier one, i.e. `f` never increases. */
  ghost predicate SortedDescending(s: seq<nat>, g: seq<real>, h: seq<real>)
    requires Indexed(s, g, h)
  {
    forall a, b :: 0 <= a < b < |s| ==> !Compare(g, h, s[b], s[a])
  }

  /** `Compare` is a strict weak order, as `std::sort` demands of its
      comparator: irreflexive, transitive, and "neither before the other" is
      transitive too. */
  lemma CompareIsStrictWeakOrder(g: seq<real>, h: seq<real>, a: nat, b: nat, c: nat)
    requires a < |g| && a < |h| && b < |g| && b < |h| && c < |g| && c < |h|
    ensures !Compare(g, h, a, a)
    ensures Compare(g, h, a, b) && Compare(g, h, b, c) ==> Compare(g, h, a, c)
    ensures !Compare(g, h, a, b) && !Compare(g, h, b, a) && !Compare(g, h, b, c) && !Compare(g, h, c, b)
      ==> !Compare(g, h, a, c) && !Compare(g, h, c, a)
  {
  }

  /** The position of a largest-`f` node among `s[lo..]`. */
  method MaxFrom(s: seq<nat>, g: seq<real>, h: seq<real>, lo: nat) returns (m: nat)
    requires Indexed(s, g, h) && lo < |s|
    ensures lo <= m < |s|
    ensures forall k :: lo <= k < |s| ==> FValue(g, h, s[k]) <= FValue(g, h, s[m])
  {
    m := lo;
    var j := lo + 1;
    while j < |s|
      invariant lo <= m < |s| && lo < j <= |s|
      invariant forall k :: lo <= k < j ==> FValue(g, h, s[k]) <= FValue(g, h, s[m])
    {
      if FValue(g, h, s[j]) > FValue(g, h, s[m]) {
        m := j;
      }
      j := j + 1;
    }
  }

  function Swap(s: seq<nat>, i: nat, j: nat): (r: seq<nat>)
    requires i < |s| && j < |s|
    ensures |r| == |s| && r[i] == s[j] && r[j] == s[i]
    ensures forall k :: 0 <= k < |s| && k != i && k != j ==> r[k] == s[k]
    ensures multiset(r) == multiset(s)
  {
    s[i := s[j]][j := s[i]]
  }

  /** Sorts node indices by descending `f` (selection sort; which of several
      equal-`f` orders results is not part of the contract). */
  method SortDescending(s: seq<nat>, g: seq<real>, h: seq<real>) returns (r: seq<nat>)
    requires Indexed(s, g, h)
    ensures Indexed(r, g, h)
    ensures multiset(r) == multiset(s)
    ensures SortedDescending(r, g, h)
  {
    r := s;
    var i := 0;
    while i < |r|
      invariant 0 <= i <= |r| == |s|
      invariant Indexed(r, g, h)
      invariant multiset(r) == multiset(s)
      invariant forall a, b :: 0 <= a < b < i ==> FValue(g, h, r[b]) <= FValue(g, h, r[a])
      invariant forall a, b :: 0 <= a < i <= b < |r| ==> FValue(g, h, r[b]) <= FValue(g, h, r[a])
    {
      var m := MaxFrom(r, g, h, i);
      r := Swap(r, i, m);
      i := i + 1;
    }
  }

  /** After sorting, the back of the list has the least `f`. */
  lemma LastIsMinimum(s: seq<nat>, g: seq<real>, h: seq<real>)
    requires Indexed(s, g, h) && SortedDescending(s, g, h) && |s| > 0
    ensures forall x :: x in s ==> x < |g| && x < |h| && FValue(g, h, s[|s| - 1]) <= FValue(g, h, x)
  {
    forall x | x in s ensures x < |g| && x < |h| && FValue(g, h, s[|s| - 1]) <= FValue(g, h, x) {
      var a :| 0 <= a < |s| && s[a] == x;
      if a < |s| - 1 {
        assert !Compare(g, h, s[|s| - 1], s[a]);
      }
    }
  }
}
