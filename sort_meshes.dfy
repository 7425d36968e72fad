/**
  sort_meshes_by_mtl: the meshes are reordered by material id. The pass
  sorts the pairs (material id, position) and reads the meshes back through
  the positions, so meshes of the same material keep their input order.
 */
module SortMeshes {
  import opened MeshTypes

  /** The lexicographic order std::pair uses. */
  predicate PairLess(a: (nat, nat), b: (nat, nat)) {
    a.0 < b.0 || (a.0 == b.0 && a.1 < b.1)
  }

  ghost predicate StrictlyAscending(s: seq<(nat, nat)>) {
    forall i, j :: 0 <= i < j < |s| ==> PairLess(s[i], s[j])
  }

  /** std::sort on one new pair: x goes after every smaller pair and before
      every larger one. */
  method InsertPair(s: seq<(nat, nat)>, x: (nat, nat)) returns (r: seq<(nat, nat)>)
    requires StrictlyAscending(s) && x !in s
    ensures StrictlyAscending(r)
    ensures |r| == |s| + 1
    ensures forall y :: y in r <==> y in s || y == x
  {
    var k := 0;
    while k < |s| && PairLess(s[k], x)
      invariant 0 <= k <= |s|
      invariant forall i :: 0 <= i < k ==> PairLess(s[i], x)
    {
      k := k + 1;
    }
    r := s[..k] + [x] + s[k..];
    assert forall i :: k <= i < |s| ==> PairLess(x, s[i]) by {
      forall i | k <= i < |s| ensures PairLess(x, s[i]) {
        assert s[k] != x && !PairLess(s[k], x);
        if i > k {
          assert PairLess(s[k], s[i]);
        }
      }
    }
    assert forall i :: 0 <= i < |r| ==> r[i] == if i < k then s[i] else if i == k then x else s[i - 1];
    forall i, j | 0 <= i < j < |r| ensures PairLess(r[i], r[j]) {
      if i < k && j > k {
        assert PairLess(s[i], x) && PairLess(x, s[j - 1]);
      }
    }
    assert s == s[..k] + s[k..];
  }

  /** The index list the pass reads the meshes back through. */
  ghost predicate SortsStably(objs: seq<ObjectInfo>, order: seq<nat>) {
    && |order| == |objs|
    && (forall i :: 0 <= i < |order| ==> order[i] < |objs|)
    && (forall k :: 0 <= k < |objs| ==> k in order)
    && (forall i, j :: 0 <= i < j < |order| ==>
          objs[order[i]].mtlId < objs[order[j]].mtlId
          || (objs[order[i]].mtlId == objs[order[j]].mtlId && order[i] < order[j]))
  }

  /** r lists objs in a stably sorting order. */
  ghost predicate StableSortOf(objs: seq<ObjectInfo>, r: seq<ObjectInfo>) {
    && |r| == |objs|
    && exists order :: SortsStably(objs, order) && forall i :: 0 <= i < |r| ==> r[i] == objs[order[i]]
  }

  /** Every position appears once in a stably sorting order. */
  lemma SortsStablyIsPermutation(objs: seq<ObjectInfo>, order: seq<nat>)
    requires SortsStably(objs, order)
    ensures NoDuplicates(order)
  {
    forall i, j | 0 <= i < j < |order| ensures order[i] != order[j] {
      if objs[order[i]].mtlId == objs[order[j]].mtlId {
        assert order[i] < order[j];
      }
    }
  }

  /** mtl_ids, filled and sorted: the positions in the order the meshes leave in. */
  method SortedOrder(objs: seq<ObjectInfo>) returns (order: seq<nat>)
    ensures SortsStably(objs, order)
  {
    var pairs: seq<(nat, nat)> := [];
    var i := 0;
    while i < |objs|
      invariant 0 <= i <= |objs| && |pairs| == i
      invariant forall k :: 0 <= k < i ==> pairs[k] == (objs[k].mtlId, k)
    {
      pairs := pairs + [(objs[i].mtlId, i)];
      i := i + 1;
    }
    var sorted: seq<(nat, nat)> := [];
    i := 0;
    while i < |pairs|
      invariant 0 <= i <= |pairs| && |sorted| == i
      invariant StrictlyAscending(sorted)
      invariant forall y :: y in sorted <==> y in pairs[..i]
    {
      assert pairs[..i + 1] == pairs[..i] + [pairs[i]];
      assert pairs[i] !in pairs[..i] by {
        forall k | 0 <= k < i ensures pairs[..i][k] != pairs[i] {
          assert pairs[..i][k] == pairs[k];
        }
      }
      sorted := InsertPair(sorted, pairs[i]);
      i := i + 1;
    }
    assert pairs[..i] == pairs;
    order := [];
    i := 0;
    while i < |sorted|
      invariant 0 <= i <= |sorted| && |order| == i
      invariant forall k :: 0 <= k < i ==> order[k] == sorted[k].1
    {
      order := order + [sorted[i].1];
      i := i + 1;
    }
    forall t | 0 <= t < |sorted| ensures sorted[t].1 < |objs| && sorted[t] == (objs[sorted[t].1].mtlId, sorted[t].1) {
      assert sorted[t] in pairs;
    }
    forall k | 0 <= k < |objs| ensures k in order {
      assert pairs[k] in sorted;
      var t :| 0 <= t < |sorted| && sorted[t] == pairs[k];
      assert order[t] == k;
    }
    forall a, b | 0 <= a < b < |order|
      ensures objs[order[a]].mtlId < objs[order[b]].mtlId
              || (objs[order[a]].mtlId == objs[order[b]].mtlId && order[a] < order[b])
    {
      assert PairLess(sorted[a], sorted[b]);
    }
  }

  /** The closing loop: the meshes read back through the sorted positions. */
  method SortMeshesByMtl(objs: seq<ObjectInfo>) returns (r: seq<ObjectInfo>)
    ensures |r| == |objs|
    ensures forall i, j :: 0 <= i < j < |r| ==> r[i].mtlId <= r[j].mtlId
    ensures StableSortOf(objs, r)
  {
    var order := SortedOrder(objs);
    r := [];
    var i := 0;
    while i < |order|
      invariant 0 <= i <= |order| && |r| == i
      invariant forall k :: 0 <= k < i ==> r[k] == objs[order[k]]
    {
      r := r + [objs[order[i]]];
      i := i + 1;
    }
  }
}
