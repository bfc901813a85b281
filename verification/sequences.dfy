/**
  Generic facts about sequences used by the slice-order model: strict
  ordering, absence of repeats, flattening a sequence of groups, and how many
  distinct elements a sequence holds.
 */
module Sequences {

  /** Every element is strictly smaller than every later one: sorted, no repeats. */
  predicate StrictlyIncreasing(s: seq<int>) {
    forall i, j :: 0 <= i < j < |s| ==> s[i] < s[j]
  }

  /** No element occurs twice. */
  predicate Distinct(s: seq<int>) {
    forall i, j :: 0 <= i < j < |s| ==> s[i] != s[j]
  }

  /** The set of elements of a sequence. */
  function Elements(s: seq<int>): (elems: set<int>) {
    set x | x in s
  }

  /** The integers 0, 1, ..., n-1 in ascending order. */
  function Iota(n: nat): (r: seq<int>)
    ensures |r| == n
  {
    seq(n, i => i)
  }

  /** The groups of `ss` laid end to end. */
  function Flatten(ss: seq<seq<int>>): (flat: seq<int>) {
    if |ss| == 0 then [] else ss[0] + Flatten(ss[1..])
  }

  /** The total number of elements over all groups of `ss`. */
  function SumLengths(ss: seq<seq<int>>): (total: nat) {
    if |ss| == 0 then 0 else |ss[0]| + SumLengths(ss[1..])
  }

  lemma StrictlyIncreasingIsDistinct(s: seq<int>)
    requires StrictlyIncreasing(s)
    ensures Distinct(s)
  {
  }

  /** Two strictly increasing sequences with the same elements are the same sequence. */
  lemma {:induction false} StrictlyIncreasingUnique(a: seq<int>, b: seq<int>)
    requires StrictlyIncreasing(a) && StrictlyIncreasing(b)
    requires forall v :: v in a <==> v in b
    ensures a == b
  {
    if |a| != 0 {
      assert a[0] in a;
    }
    if |b| != 0 {
      assert b[0] in b;
    }
    if |a| != 0 {
      assert a[0] == b[0];
      forall v
        ensures v in a[1..] <==> v in b[1..]
      {
        if v in a[1..] {
          var i :| 1 <= i < |a| && a[i] == v;
          assert v in b && v != b[0];
        }
        if v in b[1..] {
          var j :| 1 <= j < |b| && b[j] == v;
          assert v in a && v != a[0];
        }
      }
      StrictlyIncreasingUnique(a[1..], b[1..]);
      assert a == [a[0]] + a[1..];
      assert b == [b[0]] + b[1..];
    }
  }

  /** Laying groups end to end keeps every element and adds none. */
  lemma {:induction false} FlattenMembership(ss: seq<seq<int>>, x: int)
    ensures x in Flatten(ss) <==> exists k :: 0 <= k < |ss| && x in ss[k]
  {
    if |ss| != 0 {
      FlattenMembership(ss[1..], x);
      if x in Flatten(ss[1..]) {
        var k :| 0 <= k < |ss[1..]| && x in ss[1..][k];
        assert x in ss[k + 1];
      }
      if exists k :: 0 <= k < |ss| && x in ss[k] {
        var k :| 0 <= k < |ss| && x in ss[k];
        if k != 0 {
          assert x in ss[1..][k - 1];
        }
      }
    }
  }

  lemma {:induction false} FlattenLength(ss: seq<seq<int>>)
    ensures |Flatten(ss)| == SumLengths(ss)
  {
    if |ss| != 0 {
      FlattenLength(ss[1..]);
    }
  }

  /** Groups without repeats that share no element flatten to a sequence without repeats. */
  lemma {:induction false} FlattenDistinct(ss: seq<seq<int>>)
    requires forall k :: 0 <= k < |ss| ==> Distinct(ss[k])
    requires forall k1, k2, x :: 0 <= k1 < k2 < |ss| && x in ss[k1] ==> x !in ss[k2]
    ensures Distinct(Flatten(ss))
  {
    if |ss| != 0 {
      var tail := ss[1..];
      FlattenDistinct(tail);
      var f := Flatten(ss);
      assert f == ss[0] + Flatten(tail);
      forall i, j | 0 <= i < j < |f|
        ensures f[i] != f[j]
      {
        if j >= |ss[0]| && i < |ss[0]| {
          var x := f[j];
          assert x in Flatten(tail);
          FlattenMembership(tail, x);
          var k :| 0 <= k < |tail| && x in tail[k];
          assert x in ss[k + 1];
          assert f[i] in ss[0];
        }
      }
    }
  }

  /** A sequence without repeats has as many distinct elements as it has positions. */
  lemma {:induction false} DistinctCardinality(s: seq<int>)
    requires Distinct(s)
    ensures |Elements(s)| == |s|
  {
    if |s| != 0 {
      var init := s[..|s| - 1];
      var last := s[|s| - 1];
      assert Distinct(init);
      DistinctCardinality(init);
      assert last !in init;
      assert Elements(s) == Elements(init) + {last};
    }
  }

  /** A sequence without repeats holding exactly 0, ..., n-1 has length n. */
  lemma CoversRangeLength(s: seq<int>, n: nat)
    requires Distinct(s)
    requires forall x :: x in s <==> 0 <= x < n
    ensures |s| == n
  {
    var iota := Iota(n);
    forall x
      ensures x in iota <==> x in s
    {
      if 0 <= x < n {
        assert iota[x] == x;
      }
    }
    assert Elements(s) == Elements(iota);
    DistinctCardinality(s);
    DistinctCardinality(iota);
  }
}
