/**
  The distinct values of a one-dimensional array in ascending order, as
  `np.unique` returns them. Slice times are modelled as integers: the grouping
  only compares them for equality and order.
 */
module UniqueValues {
  import opened Sequences

  /** `s` with `x` added in its sorted place, unless `x` is already there. */
  function Insert(x: int, s: seq<int>): (r: seq<int>)
    requires StrictlyIncreasing(s)
    ensures StrictlyIncreasing(r)
    ensures forall y :: y in r <==> y == x || y in s
  {
    if |s| == 0 then [x]
    else if x < s[0] then [x] + s
    else if x == s[0] then s
    else
      var rest := Insert(x, s[1..]);
      assert forall j :: 0 <= j < |rest| ==> rest[j] in rest && s[0] < rest[j];
      [s[0]] + rest
  }

  /** The sorted distinct values of `t`. */
  function Unique(t: seq<int>): (r: seq<int>)
    ensures StrictlyIncreasing(r)
    ensures forall v :: v in r <==> v in t
  {
    if |t| == 0 then [] else Insert(t[|t| - 1], Unique(t[..|t| - 1]))
  }

  /** Any strictly increasing listing of exactly the values of `t` is `Unique(t)`. */
  lemma UniqueIsCanonical(t: seq<int>, s: seq<int>)
    requires StrictlyIncreasing(s)
    requires forall v :: v in s <==> v in t
    ensures s == Unique(t)
  {
    StrictlyIncreasingUnique(s, Unique(t));
  }

  /** There is one entry of `Unique(t)` per distinct value of `t`. */
  lemma UniqueLength(t: seq<int>)
    ensures |Unique(t)| == |Elements(t)|
  {
    var u := Unique(t);
    StrictlyIncreasingIsDistinct(u);
    DistinctCardinality(u);
    assert Elements(u) == Elements(t);
  }

  /** The smallest value of a non-empty sequence. */
  function Minimum(t: seq<int>): (m: int)
    requires |t| > 0
    ensures m in t
    ensures forall i :: 0 <= i < |t| ==> m <= t[i]
  {
    if |t| == 1 then t[0]
    else
      var rest := Minimum(t[1..]);
      assert forall i :: 1 <= i < |t| ==> t[i] == t[1..][i - 1];
      if t[0] <= rest then t[0] else rest
  }

  /** The first distinct value is the minimum. */
  lemma UniqueStartsAtMinimum(t: seq<int>)
    requires |t| > 0
    ensures |Unique(t)| > 0 && Unique(t)[0] == Minimum(t)
  {
    var u := Unique(t);
    var m := Minimum(t);
    assert t[0] in t;
    assert m in u;
    assert u[0] in u;
    var i :| 0 <= i < |t| && t[i] == u[0];
    var k :| 0 <= k < |u| && u[k] == m;
  }
}
