/** Sequence facts the planner needs: distinctness, positions, reversal and the
    pigeonhole bound on distinct node indices. */
module SeqUtil {

  /** No value occurs twice: each element is new to the part before it. */
  ghost predicate Distinct(s: seq<nat>) {
    |s| == 0 || (Distinct(s[..|s| - 1]) && s[|s| - 1] !in s[..|s| - 1])
  }

  /** Two repetition-free sequences with no common value concatenate to a
      repetition-free sequence. */
  lemma {:induction false} DistinctAppend(a: seq<nat>, b: seq<nat>)
    requires Distinct(a) && Distinct(b)
    requires forall x :: x in b ==> x !in a
    ensures Distinct(a + b)
  {
    if b == [] {
      assert a + b == a;
    } else {
      var pre, x := b[..|b| - 1], b[|b| - 1];
      DistinctAppend(a, pre);
      assert (a + b)[..|a + b| - 1] == a + pre;
    }
  }

  /** The position of the first occurrence of `x` in `s`. */
  function IndexOf(s: seq<nat>, x: nat): (i: nat)
    requires x in s
    ensures i < |s| && s[i] == x
    ensures forall j :: 0 <= j < i ==> s[j] != x
  {
    if s[0] == x then 0 else 1 + IndexOf(s[1..], x)
  }

  /** `s` read back to front (what `std::reverse` leaves in the vector). */
  function Reverse(s: seq<nat>): (r: seq<nat>)
    ensures |r| == |s|
    ensures forall i :: 0 <= i < |s| ==> r[i] == s[|s| - 1 - i]
  {
    if s == [] then [] else [s[|s| - 1]] + Reverse(s[..|s| - 1])
  }

  /** Reversing after appending puts the appended element first. */
  lemma ReverseSnoc(s: seq<nat>, x: nat)
    ensures Reverse(s + [x]) == [x] + Reverse(s)
  {
    assert (s + [x])[..|s|] == s;
  }

  function Elements(s: seq<nat>): set<nat> {
    set x | x in s
  }

  lemma {:induction false} DistinctElementsCount(s: seq<nat>)
    requires Distinct(s)
    ensures |Elements(s)| == |s|
  {
    if s != [] {
      var pre := s[..|s| - 1];
      assert s == pre + [s[|s| - 1]];
      assert Elements(s) == Elements(pre) + {s[|s| - 1]};
      DistinctElementsCount(pre);
    }
  }

  /** A set of values below `n` has at most `n` members. */
  lemma {:induction false} BoundedSetCount(a: set<nat>, n: nat)
    requires forall x :: x in a ==> x < n
    ensures |a| <= n
  {
    if n > 0 {
      var rest := a - {n - 1};
      assert |rest| >= |a| - 1;
      BoundedSetCount(rest, n - 1);
    } else {
      assert a == {};
    }
  }

  /** At most `n` distinct values lie below `n`. */
  lemma DistinctBelowBound(s: seq<nat>, n: nat)
    requires Distinct(s)
    requires forall i :: 0 <= i < |s| ==> s[i] < n
    ensures |s| <= n
  {
    DistinctElementsCount(s);
    BoundedSetCount(Elements(s), n);
  }
}
