/**
  Sorting timestamps oldest first, stated functionally: the result is sorted
  and is a permutation of the input. Sorting is the step that makes the
  session estimate independent of the order commits were read in.
 */
module Times {

  predicate Sorted(s: seq<int>) {
    forall i, j :: 0 <= i < j < |s| ==> s[i] <= s[j]
  }

  /** Inserts `x` into a sorted sequence at its place. */
  function Insert(x: int, s: seq<int>): (r: seq<int>)
    requires Sorted(s)
    ensures Sorted(r)
    ensures multiset(r) == multiset(s) + multiset{x}
    ensures forall y :: y in r ==> y == x || y in s
  {
    if |s| == 0 then [x]
    else if x <= s[0] then [x] + s
    else
      var rest := Insert(x, s[1..]);
      InsertBelowHead(x, s, rest);
      [s[0]] + rest
  }

  /** The head of a sorted sequence stays below everything the insertion
      into its tail produces, when the inserted value is above the head. */
  lemma InsertBelowHead(x: int, s: seq<int>, rest: seq<int>)
    requires |s| > 0 && Sorted(s) && s[0] < x
    requires forall y :: y in rest ==> y == x || y in s[1..]
    requires Sorted(rest)
    requires multiset(rest) == multiset(s[1..]) + multiset{x}
    ensures Sorted([s[0]] + rest)
    ensures multiset([s[0]] + rest) == multiset(s) + multiset{x}
    ensures forall y :: y in [s[0]] + rest ==> y == x || y in s
  {
    assert s == [s[0]] + s[1..];
    forall k | 0 <= k < |rest|
      ensures s[0] <= rest[k]
    {
      assert rest[k] in rest;
      if rest[k] != x {
        var m :| 0 <= m < |s[1..]| && s[1..][m] == rest[k];
        assert s[1..][m] == s[m + 1];
      }
    }
  }

  /** Sorts timestamps ascending (insertion sort). */
  function SortTimes(s: seq<int>): (r: seq<int>)
    ensures Sorted(r)
    ensures multiset(r) == multiset(s)
    ensures |r| == |s|
  {
    if |s| == 0 then []
    else
      assert s == [s[0]] + s[1..];
      Insert(s[0], SortTimes(s[1..]))
  }

  /** Two sorted permutations of one multiset are the same sequence, so the
      sorted order of a collection of timestamps does not depend on the order
      the timestamps arrived in. */
  lemma {:induction false} SortedPermutationUnique(a: seq<int>, b: seq<int>)
    requires Sorted(a) && Sorted(b)
    requires multiset(a) == multiset(b)
    ensures a == b
  {
    assert |a| == |multiset(a)| == |multiset(b)| == |b|;
    if |a| > 0 {
      HeadIsLeast(a, b);
      HeadIsLeast(b, a);
      assert a == [a[0]] + a[1..];
      assert b == [b[0]] + b[1..];
      assert multiset(a[1..]) == multiset(a) - multiset{a[0]};
      assert multiset(b[1..]) == multiset(b) - multiset{b[0]};
      SortedPermutationUnique(a[1..], b[1..]);
    }
  }

  /** The first element of a sorted sequence is at most every element of any
      permutation of it. */
  lemma HeadIsLeast(a: seq<int>, b: seq<int>)
    requires Sorted(a) && |a| > 0 && |b| > 0
    requires multiset(a) == multiset(b)
    ensures a[0] <= b[0]
  {
    assert b[0] in multiset(a);
    var i :| 0 <= i < |a| && a[i] == b[0];
  }

  /** Sorting gives the same sequence for any two arrangements of the same
      timestamps. */
  lemma SortIgnoresOrder(a: seq<int>, b: seq<int>)
    requires multiset(a) == multiset(b)
    ensures SortTimes(a) == SortTimes(b)
  {
    SortedPermutationUnique(SortTimes(a), SortTimes(b));
  }
}
