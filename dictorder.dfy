/** A Python `dict` with integer keys handed out in increasing order, as
    both product stores keep one: the map, and beside it the order its keys
    were inserted in, which `values()` and iteration follow. */
module DictOrder {
  /** `ids` is the insertion order of `m`'s keys: each key once, and
      ascending, since every new key is larger than all before it. */
  predicate Ordered<V>(m: map<int, V>, ids: seq<int>) {
    && (forall i :: 0 <= i < |ids| ==> ids[i] in m)
    && (forall k :: k in m ==> k in ids)
    && (forall i, j :: 0 <= i < j < |ids| ==> ids[i] < ids[j])
  }

  /** `d.pop(id)` on the key order. */
  function Remove(ids: seq<int>, id: int): (r: seq<int>)
    ensures forall x :: x in r <==> x in ids && x != id
  {
    if ids == [] then []
    else Remove(ids[..|ids| - 1], id) + (if ids[|ids| - 1] == id then [] else [ids[|ids| - 1]])
  }

  /** `d[k] = v` for a key above every stored one appends it to the
      order. */
  lemma AppendKeepsOrdered<V>(m: map<int, V>, ids: seq<int>, k: int, v: V)
    requires Ordered(m, ids) && forall x :: x in m ==> x < k
    ensures Ordered(m[k := v], ids + [k])
  {
    var ids' := ids + [k];
    forall i, j | 0 <= i < j < |ids'|
      ensures ids'[i] < ids'[j]
    {
      if j == |ids| {
        assert ids[i] in m;
      }
    }
  }

  /** `d.pop(k)` keeps the rest of the order. */
  lemma RemoveKeepsOrdered<V>(m: map<int, V>, ids: seq<int>, k: int)
    requires Ordered(m, ids)
    ensures Ordered(m - {k}, Remove(ids, k))
  {
    RemoveKeepsOrder(ids, k);
    var r := Remove(ids, k);
    forall i | 0 <= i < |r|
      ensures r[i] in m - {k}
    {
      assert r[i] in r;
      var j :| 0 <= j < |ids| && ids[j] == r[i];
    }
  }

  /** Removing a key keeps the others ascending. */
  lemma {:induction false} RemoveKeepsOrder(ids: seq<int>, id: int)
    requires forall i, j :: 0 <= i < j < |ids| ==> ids[i] < ids[j]
    ensures forall i, j :: 0 <= i < j < |Remove(ids, id)| ==> Remove(ids, id)[i] < Remove(ids, id)[j]
    decreases |ids|
  {
    if ids != [] {
      var init := ids[..|ids| - 1];
      RemoveKeepsOrder(init, id);
      var r := Remove(init, id);
      forall x | x in r
        ensures x < ids[|ids| - 1]
      {
        var k :| 0 <= k < |init| && init[k] == x;
        assert ids[k] == x;
      }
      var r' := Remove(ids, id);
      forall i, j | 0 <= i < j < |r'|
        ensures r'[i] < r'[j]
      {
        if j >= |r| {
          assert r'[i] == r[i] && r[i] in r;
        }
      }
    }
  }

  /** An ascending key order lists each key once, so it is as long as the
      set of its keys. */
  lemma {:induction false} DistinctCount(ids: seq<int>)
    requires forall i, j :: 0 <= i < j < |ids| ==> ids[i] < ids[j]
    ensures |set x | x in ids| == |ids|
    decreases |ids|
  {
    if ids != [] {
      var init := ids[..|ids| - 1];
      var last := ids[|ids| - 1];
      DistinctCount(init);
      assert (set x | x in ids) == (set x | x in init) + {last};
      forall k | 0 <= k < |init|
        ensures init[k] != last
      {
        assert init[k] == ids[k];
      }
    }
  }
}
