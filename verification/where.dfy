/**
  The positions at which a one-dimensional array holds a given value, in
  ascending order, as `np.where(time == timing)[0]` returns them.
 */
module WhereIndices {
  import opened Sequences

  /** The indices `i` with `t[i] == v`, smallest first. */
  function IndicesOf(t: seq<int>, v: int): (r: seq<nat>)
    ensures StrictlyIncreasing(r)
    ensures forall i: int :: i in r <==> 0 <= i < |t| && t[i] == v
  {
    if |t| == 0 then []
    else
      var init := t[..|t| - 1];
      var found := IndicesOf(init, v);
      assert forall j :: 0 <= j < |found| ==> found[j] < |init| by {
        forall j | 0 <= j < |found|
          ensures found[j] < |init|
        {
          var i: int := found[j];
          assert i in found;
        }
      }
      found + (if t[|t| - 1] == v then [|t| - 1] else [])
  }

  /** There is one index per occurrence of `v`. */
  lemma {:induction false} IndicesOfCount(t: seq<int>, v: int)
    ensures |IndicesOf(t, v)| == multiset(t)[v]
  {
    if |t| != 0 {
      var init := t[..|t| - 1];
      IndicesOfCount(init, v);
      assert t == init + [t[|t| - 1]];
      assert multiset(t) == multiset(init) + multiset{t[|t| - 1]};
    }
  }

  /** A left-to-right scan collecting the matching positions, in the ascending order `np.where` reports. */
  method FindIndices(t: seq<int>, v: int) returns (r: seq<nat>)
    ensures StrictlyIncreasing(r)
    ensures forall i: int :: i in r <==> 0 <= i < |t| && t[i] == v
    ensures r == IndicesOf(t, v)
  {
    r := [];
    var n := 0;
    while n < |t|
      invariant 0 <= n <= |t|
      invariant r == IndicesOf(t[..n], v)
    {
      assert t[..n + 1][..n] == t[..n];
      if t[n] == v {
        r := r + [n];
      }
      n := n + 1;
    }
    assert t[..|t|] == t;
  }
}
