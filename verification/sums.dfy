/**
  Sums of per-author quantities over an enumeration of author keys. The
  analyzer walks its author map in Go's unspecified iteration order; these
  lemmas show that the sums it accumulates do not depend on that order.
 */
module Sums {

  predicate Distinct(ks: seq<string>) {
    forall i, j :: 0 <= i < j < |ks| ==> ks[i] != ks[j]
  }

  /** The value stored for `k`, or 0 for a key that is absent. */
  function ValueAt(m: map<string, int>, k: string): int {
    if k in m then m[k] else 0
  }

  /** The sum of the values of the keys `ks`, in order. */
  function SumOver(ks: seq<string>, m: map<string, int>): int
    decreases |ks|
  {
    if |ks| == 0 then 0
    else SumOver(ks[..|ks| - 1], m) + ValueAt(m, ks[|ks| - 1])
  }

  lemma {:induction false} SumOverAppend(a: seq<string>, b: seq<string>, m: map<string, int>)
    ensures SumOver(a + b, m) == SumOver(a, m) + SumOver(b, m)
    decreases |b|
  {
    if |b| > 0 {
      var b' := b[..|b| - 1];
      assert (a + b)[..|a + b| - 1] == a + b';
      SumOverAppend(a, b', m);
    } else {
      assert a + b == a;
    }
  }

  /** Any two duplicate-free enumerations of the same keys have the same
      sum. */
  lemma {:induction false} SumOverPermutation(a: seq<string>, b: seq<string>, m: map<string, int>)
    requires Distinct(a) && Distinct(b) && |a| == |b|
    requires forall k :: k in a <==> k in b
    ensures SumOver(a, m) == SumOver(b, m)
    decreases |a|
  {
    if |a| > 0 {
      var x := a[|a| - 1];
      var a' := a[..|a| - 1];
      assert x in a;
      var j :| 0 <= j < |b| && b[j] == x;
      var b' := b[..j] + b[j + 1..];
      DropLast(a);
      DropAt(b, j);
      forall k
        ensures k in a' <==> k in b'
      {
        assert k in a <==> k in b;
      }
      SumOverPermutation(a', b', m);
      assert b == b[..j] + [x] + b[j + 1..];
      SumOverAppend(b[..j] + [x], b[j + 1..], m);
      SumOverAppend(b[..j], [x], m);
      SumOverAppend(b[..j], b[j + 1..], m);
      assert [x][..0] == [];
    }
  }

  /** Dropping the last key of a duplicate-free enumeration leaves exactly
      the other keys. */
  lemma DropLast(a: seq<string>)
    requires Distinct(a) && |a| > 0
    ensures Distinct(a[..|a| - 1])
    ensures forall k :: k in a[..|a| - 1] <==> k in a && k != a[|a| - 1]
  {
    var a' := a[..|a| - 1];
    forall k | k in a'
      ensures k in a && k != a[|a| - 1]
    {
      var i :| 0 <= i < |a'| && a'[i] == k;
      assert a[i] == k;
    }
    forall k | k in a && k != a[|a| - 1]
      ensures k in a'
    {
      var i :| 0 <= i < |a| && a[i] == k;
      assert a'[i] == k;
    }
  }

  /** Dropping the key at position `j` of a duplicate-free enumeration
      leaves exactly the other keys. */
  lemma DropAt(b: seq<string>, j: int)
    requires Distinct(b) && 0 <= j < |b|
    ensures Distinct(b[..j] + b[j + 1..])
    ensures forall k :: k in b[..j] + b[j + 1..] <==> k in b && k != b[j]
  {
    var b' := b[..j] + b[j + 1..];
    assert forall i :: 0 <= i < |b'| ==> b'[i] == b[if i < j then i else i + 1];
    forall k | k in b'
      ensures k in b && k != b[j]
    {
      var i :| 0 <= i < |b'| && b'[i] == k;
      assert b[if i < j then i else i + 1] == k;
    }
    forall k | k in b && k != b[j]
      ensures k in b'
    {
      var i :| 0 <= i < |b| && b[i] == k;
      assert b'[if i < j then i else i - 1] == k;
    }
  }

  /** Adding `d` to the value of one key adds `d` to the sum over any
      duplicate-free enumeration that lists the key, and nothing to one that
      does not. */
  lemma {:induction false} SumOverBump(ks: seq<string>, m: map<string, int>, k: string, d: int)
    requires Distinct(ks)
    ensures SumOver(ks, m[k := ValueAt(m, k) + d]) == SumOver(ks, m) + (if k in ks then d else 0)
    decreases |ks|
  {
    if |ks| > 0 {
      var ks' := ks[..|ks| - 1];
      var last := ks[|ks| - 1];
      assert Distinct(ks');
      SumOverBump(ks', m, k, d);
      assert k in ks <==> k in ks' || k == last;
    }
  }
}
