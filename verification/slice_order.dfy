/**
  Multiband slice-order recovery (mb-slice-order.py).

  A multiband acquisition excites several slices at once, so the sidecar's
  per-slice acquisition times repeat. The slice order is recovered by grouping
  the slice indices that share one time: one group per distinct time, groups
  in ascending order of time, each group listing its slices in ascending
  order. The script then checks that the first group has as many slices as
  the declared multiband acceleration factor.
 */
module SliceOrder {
  import opened Sequences
  import opened UniqueValues
  import opened WhereIndices

  /** Why the script stops before writing the slice-order file. */
  datatype CheckError =
    /** There are no slices, so there is no first group to look at. */
    | NoSlices
    /** The first group does not have `expected` (the multiband factor) slices. */
    | FirstGroupSize(expected: int, found: nat)

  datatype Result<T> = Ok(value: T) | Err(error: CheckError)

  /**
    `main`: one group per distinct time, ascending; group k lists, in slice
    order, exactly the slices taken at the k-th smallest time.
   */
  function Group(timing: seq<int>): (r: seq<seq<nat>>)
    ensures |r| == |Unique(timing)|
    ensures forall k, i: int :: 0 <= k < |r| ==>
              (i in r[k] <==> 0 <= i < |timing| && timing[i] == Unique(timing)[k])
    ensures forall k :: 0 <= k < |r| ==> StrictlyIncreasing(r[k]) && |r[k]| > 0
  {
    var times := Unique(timing);
    var r := seq(|times|, k requires 0 <= k < |times| => IndicesOf(timing, times[k]));
    assert forall k :: 0 <= k < |r| ==> |r[k]| > 0 by {
      forall k | 0 <= k < |r|
        ensures |r[k]| > 0
      {
        assert times[k] in times;
        var i :| 0 <= i < |timing| && timing[i] == times[k];
        assert i in r[k];
      }
    }
    r
  }

  // ---------------------------------------------------------------------------
  // An independent description of a slice order, and its agreement with Group

  /** A non-empty, ascending list of slice indices of `t`. */
  predicate ValidGroup(t: seq<int>, g: seq<nat>) {
    && |g| > 0
    && StrictlyIncreasing(g)
    && forall i: int :: i in g ==> 0 <= i < |t|
  }

  /** The acquisition time of the slices of a group, read off its first slice. */
  function GroupTime(t: seq<int>, g: seq<nat>): (time: int)
    requires ValidGroup(t, g)
    ensures time in t
  {
    assert g[0] in g;
    t[g[0]]
  }

  /** Slice `i` is listed in some group. */
  ghost predicate InSomeGroup(groups: seq<seq<nat>>, i: int) {
    exists k :: 0 <= k < |groups| && i in groups[k]
  }

  /**
    `groups` is a slice order of `t`: each group is a non-empty ascending list
    of exactly the slices taken at the group's time, the groups' times are
    strictly ascending, and every slice is in some group.
   */
  ghost predicate IsSliceOrder(t: seq<int>, groups: seq<seq<nat>>) {
    && (forall k :: 0 <= k < |groups| ==> ValidGroup(t, groups[k]))
    && (forall k, i: int :: 0 <= k < |groups| && 0 <= i < |t| ==>
          (i in groups[k] <==> t[i] == GroupTime(t, groups[k])))
    && (forall k1, k2 :: 0 <= k1 < k2 < |groups| ==>
          GroupTime(t, groups[k1]) < GroupTime(t, groups[k2]))
    && (forall i :: 0 <= i < |t| ==> InSomeGroup(groups, i))
  }

  /** The grouping is a slice order. */
  lemma GroupIsSliceOrder(t: seq<int>)
    ensures IsSliceOrder(t, Group(t))
  {
    var g := Group(t);
    var u := Unique(t);
    forall k | 0 <= k < |g|
      ensures ValidGroup(t, g[k]) && GroupTime(t, g[k]) == u[k]
    {
      assert u[k] in u;
      var i :| 0 <= i < |t| && t[i] == u[k];
      assert i in g[k];
      assert g[k][0] in g[k];
    }
    forall i | 0 <= i < |t|
      ensures InSomeGroup(g, i)
    {
      assert t[i] in u;
      var k :| 0 <= k < |u| && u[k] == t[i];
      assert i in g[k];
    }
  }

  /** A slice order is the grouping: nothing else satisfies the description. */
  lemma SliceOrderIsGroup(t: seq<int>, groups: seq<seq<nat>>)
    requires IsSliceOrder(t, groups)
    ensures groups == Group(t)
  {
    var times := seq(|groups|, k requires 0 <= k < |groups| => GroupTime(t, groups[k]));
    forall v
      ensures v in times <==> v in t
    {
      if v in t {
        var i :| 0 <= i < |t| && t[i] == v;
        assert InSomeGroup(groups, i);
        var k :| 0 <= k < |groups| && i in groups[k];
        assert times[k] == v;
      }
    }
    UniqueIsCanonical(t, times);
    var g := Group(t);
    forall k | 0 <= k < |groups|
      ensures groups[k] == g[k]
    {
      forall i
        ensures i in groups[k] <==> i in g[k]
      {
      }
      StrictlyIncreasingUnique(groups[k], g[k]);
    }
  }

  /** Being a slice order of `t` is the same as being `Group(t)`. */
  lemma SliceOrderCharacterisation(t: seq<int>, groups: seq<seq<nat>>)
    ensures IsSliceOrder(t, groups) <==> groups == Group(t)
  {
    GroupIsSliceOrder(t);
    if IsSliceOrder(t, groups) {
      SliceOrderIsGroup(t, groups);
    }
  }

  // ---------------------------------------------------------------------------
  // Properties of the grouping

  /** One non-empty group per distinct time, in strictly ascending order of time. */
  lemma GroupsPerDistinctTime(t: seq<int>)
    ensures |Group(t)| == |Elements(t)|
    ensures forall k :: 0 <= k < |Group(t)| ==> ValidGroup(t, Group(t)[k])
    ensures forall k1, k2 :: 0 <= k1 < k2 < |Group(t)| ==>
              GroupTime(t, Group(t)[k1]) < GroupTime(t, Group(t)[k2])
  {
    UniqueLength(t);
    GroupIsSliceOrder(t);
  }

  /** Distinct groups share no slice. */
  lemma GroupsDisjoint(t: seq<int>)
    ensures forall k1, k2, i: int ::
              0 <= k1 < |Group(t)| && 0 <= k2 < |Group(t)| && i in Group(t)[k1] && i in Group(t)[k2]
              ==> k1 == k2
  {
    var g := Group(t);
    var u := Unique(t);
    forall k1, k2, i: int | 0 <= k1 < |g| && 0 <= k2 < |g| && i in g[k1] && i in g[k2]
      ensures k1 == k2
    {
      assert u[k1] == t[i] == u[k2];
    }
  }

  /** The group sizes add up to the number of slices. */
  lemma GroupSizesSum(t: seq<int>)
    ensures SumLengths(Group(t)) == |t|
  {
    GroupsFlattenDistinct(t);
    GroupsCoverSlices(t);
    CoversRangeLength(Flatten(Group(t)), |t|);
    FlattenLength(Group(t));
  }

  /** Laid end to end, the groups repeat no slice. */
  lemma GroupsFlattenDistinct(t: seq<int>)
    ensures Distinct(Flatten(Group(t)))
  {
    var g := Group(t);
    GroupsDisjoint(t);
    forall k | 0 <= k < |g|
      ensures Distinct(g[k])
    {
      StrictlyIncreasingIsDistinct(g[k]);
    }
    FlattenDistinct(g);
  }

  /** Laid end to end, the groups hold exactly the slices 0 .. |t|-1. */
  lemma GroupsCoverSlices(t: seq<int>)
    ensures forall x :: x in Flatten(Group(t)) <==> 0 <= x < |t|
  {
    var g := Group(t);
    GroupIsSliceOrder(t);
    forall x: int
      ensures x in Flatten(g) <==> 0 <= x < |t|
    {
      FlattenMembership(g, x);
      if x in Flatten(g) {
        var k :| 0 <= k < |g| && x in g[k];
        assert ValidGroup(t, g[k]);
      }
      if 0 <= x < |t| {
        assert InSomeGroup(g, x);
      }
    }
  }

  /** Every slice lies in exactly one group, and the group sizes add up to the slice count. */
  lemma GroupPartitionsSlices(t: seq<int>)
    ensures forall i :: 0 <= i < |t| ==> InSomeGroup(Group(t), i)
    ensures forall k1, k2, i: int ::
              0 <= k1 < |Group(t)| && 0 <= k2 < |Group(t)| && i in Group(t)[k1] && i in Group(t)[k2]
              ==> k1 == k2
    ensures forall k, i: int :: 0 <= k < |Group(t)| && i in Group(t)[k] ==> 0 <= i < |t|
    ensures SumLengths(Group(t)) == |t|
  {
    GroupIsSliceOrder(t);
    GroupsDisjoint(t);
    GroupSizesSum(t);
  }

  /** The first group is exactly the slices taken at the earliest time. */
  lemma FirstGroupIsEarliest(t: seq<int>)
    requires |t| > 0
    ensures |Group(t)| > 0
    ensures forall i: int :: i in Group(t)[0] <==> 0 <= i < |t| && t[i] == Minimum(t)
    ensures |Group(t)[0]| == multiset(t)[Minimum(t)]
  {
    UniqueStartsAtMinimum(t);
    IndicesOfCount(t, Minimum(t));
  }

  /** No slices, no groups. */
  lemma GroupEmpty()
    ensures Group([]) == []
  {
  }

  // ---------------------------------------------------------------------------
  // The sanity check and the script

  /** The first group must have as many slices as the multiband factor; later groups are not looked at. */
  function SanityCheck(groups: seq<seq<nat>>, mbAccel: int): (r: Result<seq<seq<nat>>>)
    ensures r.Ok? <==> |groups| > 0 && |groups[0]| == mbAccel
    ensures r.Ok? ==> r.value == groups
  {
    if |groups| == 0 then Err(NoSlices)
    else if |groups[0]| != mbAccel then Err(FirstGroupSize(mbAccel, |groups[0]|))
    else Ok(groups)
  }

  /** Only the size of the first group decides the check: later groups may be anything. */
  lemma SanityCheckReadsFirstGroupOnly(a: seq<seq<nat>>, b: seq<seq<nat>>, mbAccel: int)
    requires |a| > 0 && |b| > 0 && |a[0]| == |b[0]|
    ensures SanityCheck(a, mbAccel).Ok? <==> SanityCheck(b, mbAccel).Ok?
    ensures SanityCheck(a, mbAccel).Err? ==> SanityCheck(a, mbAccel).error == SanityCheck(b, mbAccel).error
  {
  }

  /** The check on a grouping passes exactly when the earliest time occurs `mbAccel` times. */
  lemma SanityCheckOnGroup(t: seq<int>, mbAccel: int)
    ensures SanityCheck(Group(t), mbAccel).Ok? <==>
              |t| > 0 && multiset(t)[Minimum(t)] == mbAccel
    ensures |t| == 0 ==> SanityCheck(Group(t), mbAccel) == Err(NoSlices)
    ensures |t| > 0 && multiset(t)[Minimum(t)] != mbAccel ==>
              SanityCheck(Group(t), mbAccel) == Err(FirstGroupSize(mbAccel, multiset(t)[Minimum(t)]))
  {
    if |t| > 0 {
      FirstGroupIsEarliest(t);
    }
  }

  /** The script's loop: for each distinct time, append the slices taken at it. */
  method BuildSliceOrder(timing: seq<int>) returns (order: seq<seq<nat>>)
    ensures IsSliceOrder(timing, order)
    ensures order == Group(timing)
  {
    var times := Unique(timing);
    order := [];
    var k := 0;
    while k < |times|
      invariant 0 <= k <= |times|
      invariant order == Group(timing)[..k]
    {
      var indices := FindIndices(timing, times[k]);
      order := order + [indices];
      k := k + 1;
    }
    GroupIsSliceOrder(timing);
  }

  /**
    The script up to its sanity check: group the sidecar's slice times, run
    the check, and return the groups handed to `np.savetxt`.
   */
  method RecoverSliceOrder(timing: seq<int>, mbAccel: int) returns (r: Result<seq<seq<nat>>>)
    ensures r.Ok? <==> |timing| > 0 && multiset(timing)[Minimum(timing)] == mbAccel
    ensures r.Ok? ==> IsSliceOrder(timing, r.value)
    ensures r.Ok? ==> r.value == Group(timing)
    ensures |timing| == 0 ==> r == Err(NoSlices)
    ensures |timing| > 0 && multiset(timing)[Minimum(timing)] != mbAccel ==>
              r == Err(FirstGroupSize(mbAccel, multiset(timing)[Minimum(timing)]))
  {
    var order := BuildSliceOrder(timing);
    SanityCheckOnGroup(timing, mbAccel);
    r := SanityCheck(order, mbAccel);
  }

  // ---------------------------------------------------------------------------
  // Worked cases

  /** Pins down a grouping from its distinct times and the indices at each time. */
  lemma GroupFromParts(t: seq<int>, times: seq<int>, groups: seq<seq<nat>>)
    requires StrictlyIncreasing(times)
    requires forall v :: v in times <==> v in t
    requires |groups| == |times|
    requires forall k :: 0 <= k < |groups| ==> groups[k] == IndicesOf(t, times[k])
    ensures groups == Group(t)
  {
    UniqueIsCanonical(t, times);
  }

  /** Three slices per time, factor 3: the check passes and the groups interleave. */
  lemma ThreeBandExample()
    ensures Group([0, 100, 200, 0, 100, 200, 0, 100, 200]) == [[0, 3, 6], [1, 4, 7], [2, 5, 8]]
    ensures SanityCheck(Group([0, 100, 200, 0, 100, 200, 0, 100, 200]), 3).Ok?
  {
    ThreeBandGrouping([0, 100, 200, 0, 100, 200, 0, 100, 200]);
  }

  /** The grouping in the three-band case. */
  lemma ThreeBandGrouping(t: seq<int>)
    requires t == [0, 100, 200, 0, 100, 200, 0, 100, 200]
    ensures Group(t) == [[0, 3, 6], [1, 4, 7], [2, 5, 8]]
  {
    ThreeBandIndices(t);
    assert forall v :: v in [0, 100, 200] <==> v in t by {
      assert t[0] == 0 && t[1] == 100 && t[2] == 200;
    }
    GroupFromParts(t, [0, 100, 200], [[0, 3, 6], [1, 4, 7], [2, 5, 8]]);
  }

  /** The slices of each time in the three-band case. */
  lemma ThreeBandIndices(t: seq<int>)
    requires t == [0, 100, 200, 0, 100, 200, 0, 100, 200]
    ensures IndicesOf(t, 0) == [0, 3, 6]
    ensures IndicesOf(t, 100) == [1, 4, 7]
    ensures IndicesOf(t, 200) == [2, 5, 8]
  {
    assert forall i :: 0 <= i < |t| ==> t[i] == 100 * (i % 3);
    forall i: int
      ensures i in [0, 3, 6] <==> 0 <= i < |t| && t[i] == 0
      ensures i in [1, 4, 7] <==> 0 <= i < |t| && t[i] == 100
      ensures i in [2, 5, 8] <==> 0 <= i < |t| && t[i] == 200
    {
    }
    IndicesOfExactly(t, 0, [0, 3, 6]);
    IndicesOfExactly(t, 100, [1, 4, 7]);
    IndicesOfExactly(t, 200, [2, 5, 8]);
  }

  /** Five slices at three times, factor 3: the earliest time has only two slices, so the check fails. */
  lemma ShortTimingExample()
    ensures SanityCheck(Group([0, 100, 200, 0, 100]), 3) == Err(FirstGroupSize(3, 2))
  {
    ShortTimingGrouping([0, 100, 200, 0, 100]);
  }

  /** The grouping in the five-slice case. */
  lemma ShortTimingGrouping(t: seq<int>)
    requires t == [0, 100, 200, 0, 100]
    ensures Group(t) == [[0, 3], [1, 4], [2]]
  {
    ShortTimingIndices(t);
    assert forall v :: v in [0, 100, 200] <==> v in t by {
      assert t[0] == 0 && t[1] == 100 && t[2] == 200;
    }
    GroupFromParts(t, [0, 100, 200], [[0, 3], [1, 4], [2]]);
  }

  /** The slices of each time in the five-slice case. */
  lemma ShortTimingIndices(t: seq<int>)
    requires t == [0, 100, 200, 0, 100]
    ensures IndicesOf(t, 0) == [0, 3]
    ensures IndicesOf(t, 100) == [1, 4]
    ensures IndicesOf(t, 200) == [2]
  {
    assert forall i :: 0 <= i < |t| ==> t[i] == 100 * (i % 3);
    forall i: int
      ensures i in [0, 3] <==> 0 <= i < |t| && t[i] == 0
      ensures i in [1, 4] <==> 0 <= i < |t| && t[i] == 100
      ensures i in [2] <==> 0 <= i < |t| && t[i] == 200
    {
    }
    IndicesOfExactly(t, 0, [0, 3]);
    IndicesOfExactly(t, 100, [1, 4]);
    IndicesOfExactly(t, 200, [2]);
  }

  /** Only the first group is checked: a later group of another size still passes. */
  lemma LaterGroupsUnchecked()
    ensures SanityCheck(Group([0, 0, 1]), 2).Ok?
    ensures |Group([0, 0, 1])| == 2 && |Group([0, 0, 1])[1]| == 1
  {
    LaterGroupsGrouping([0, 0, 1]);
  }

  /** The grouping in the uneven case. */
  lemma LaterGroupsGrouping(t: seq<int>)
    requires t == [0, 0, 1]
    ensures Group(t) == [[0, 1], [2]]
  {
    LaterGroupsIndices(t);
    assert forall v :: v in [0, 1] <==> v in t by {
      assert t[0] == 0 && t[2] == 1;
    }
    GroupFromParts(t, [0, 1], [[0, 1], [2]]);
  }

  /** The slices of each time in the uneven case. */
  lemma LaterGroupsIndices(t: seq<int>)
    requires t == [0, 0, 1]
    ensures IndicesOf(t, 0) == [0, 1]
    ensures IndicesOf(t, 1) == [2]
  {
    forall i: int
      ensures i in [0, 1] <==> 0 <= i < |t| && t[i] == 0
      ensures i in [2] <==> 0 <= i < |t| && t[i] == 1
    {
    }
    IndicesOfExactly(t, 0, [0, 1]);
    IndicesOfExactly(t, 1, [2]);
  }

  /** A strictly increasing list holding exactly the positions of `v` is `IndicesOf(t, v)`. */
  lemma IndicesOfExactly(t: seq<int>, v: int, s: seq<nat>)
    requires StrictlyIncreasing(s)
    requires forall i: int :: i in s <==> 0 <= i < |t| && t[i] == v
    ensures IndicesOf(t, v) == s
  {
    StrictlyIncreasingUnique(s, IndicesOf(t, v));
  }
}
