/**
  Per-material partitioning (end of extract_object, mesh_extractor.cpp): the
  welded triangles of one node are split by folded material id; each
  material that has triangles becomes one mesh holding exactly those
  triangles, the referenced vertices in ascending global index order, and
  local indices into that vertex list.
 */
module Partition {
  import opened MeshTypes

  /** The triangles whose face carries material m, in their original order. */
  function MaterialTriangles(faceMtl: seq<nat>, tris: seq<Triangle>, m: nat): (r: seq<Triangle>)
    requires |faceMtl| == |tris|
    ensures |r| <= |tris|
  {
    if tris == [] then []
    else
      var n := |tris|;
      MaterialTriangles(faceMtl[..n - 1], tris[..n - 1], m) + (if faceMtl[n - 1] == m then [tris[n - 1]] else [])
  }

  /** A material's triangles are drawn from the mesh, and there are none
      exactly when no face carries the material. */
  lemma {:induction false} MaterialTrianglesSelect(faceMtl: seq<nat>, tris: seq<Triangle>, m: nat)
    requires |faceMtl| == |tris|
    ensures MaterialTriangles(faceMtl, tris, m) == [] <==> forall f :: 0 <= f < |faceMtl| ==> faceMtl[f] != m
    ensures forall t :: t in MaterialTriangles(faceMtl, tris, m) ==> t in tris
  {
    if tris != [] {
      var n := |tris|;
      var init, initMtl := tris[..n - 1], faceMtl[..n - 1];
      MaterialTrianglesSelect(initMtl, init, m);
      assert forall f :: 0 <= f < n - 1 ==> initMtl[f] == faceMtl[f];
      assert forall t :: t in init ==> t in tris;
    }
  }

  /** The vertex indices the triangles reference: index_set. */
  function CornerSet(tris: seq<Triangle>): set<nat> {
    if tris == [] then {}
    else
      var last := tris[|tris| - 1];
      CornerSet(tris[..|tris| - 1]) + {last.v0, last.v1, last.v2}
  }

  /** index_set holds every corner of the triangles and nothing else. */
  lemma {:induction false} CornerSetIsCorners(tris: seq<Triangle>)
    ensures forall t, k :: 0 <= t < |tris| && 0 <= k < 3 ==> tris[t].Corner(k) in CornerSet(tris)
    ensures forall x :: x in CornerSet(tris) ==> exists t, k :: 0 <= t < |tris| && 0 <= k < 3 && tris[t].Corner(k) == x
  {
    if tris != [] {
      var n := |tris|;
      var init, last := tris[..n - 1], tris[n - 1];
      CornerSetIsCorners(init);
      assert forall t :: 0 <= t < n - 1 ==> init[t] == tris[t];
      assert last.Corner(0) == last.v0 && last.Corner(1) == last.v1 && last.Corner(2) == last.v2;
      forall x | x in CornerSet(tris) ensures exists t, k :: 0 <= t < n && 0 <= k < 3 && tris[t].Corner(k) == x {
        if x in CornerSet(init) {
          var t, k :| 0 <= t < n - 1 && 0 <= k < 3 && init[t].Corner(k) == x;
          assert tris[t].Corner(k) == x;
        } else {
          assert tris[n - 1].Corner(0) == x || tris[n - 1].Corner(1) == x || tris[n - 1].Corner(2) == x;
        }
      }
    }
  }

  /** The least element of a non-empty set of indices. */
  ghost function Min(s: set<nat>): (m: nat)
    requires s != {}
    ensures m in s && forall x :: x in s ==> m <= x
    decreases |s|
  {
    var y :| y in s;
    var rest := s - {y};
    if rest == {} then
      assert forall x :: x in s ==> x == y || x in rest;
      y
    else
      var r := Min(rest);
      assert forall x :: x in s ==> x == y || x in rest;
      if y < r then y else r
  }

  /** The elements of a set of indices in ascending order: the order in
      which a std::set<int> is iterated. */
  ghost function Ascending(s: set<nat>): (r: seq<nat>)
    ensures |r| == |s|
    decreases |s|
  {
    if s == {} then [] else [Min(s)] + Ascending(s - {Min(s)})
  }

  /** Ascending lists exactly the elements of the set, each once, in
      increasing order. */
  lemma {:induction false} AscendingIsSortedSet(s: set<nat>)
    ensures forall a, b :: 0 <= a < b < |Ascending(s)| ==> Ascending(s)[a] < Ascending(s)[b]
    ensures forall x :: x in s <==> x in Ascending(s)
    decreases |s|
  {
    if s != {} {
      var m := Min(s);
      var rest := Ascending(s - {m});
      AscendingIsSortedSet(s - {m});
      assert Ascending(s) == [m] + rest;
      forall a, b | 0 <= a < b < |Ascending(s)| ensures Ascending(s)[a] < Ascending(s)[b] {
        if a == 0 {
          assert Ascending(s)[b] == rest[b - 1];
          assert rest[b - 1] in s - {m};
        } else {
          assert Ascending(s)[a] == rest[a - 1] && Ascending(s)[b] == rest[b - 1];
        }
      }
    }
  }

  lemma MaterialTrianglesStep(faceMtl: seq<nat>, tris: seq<Triangle>, m: nat, j: nat)
    requires |faceMtl| == |tris| && j < |tris|
    ensures MaterialTriangles(faceMtl[..j + 1], tris[..j + 1], m)
            == MaterialTriangles(faceMtl[..j], tris[..j], m) + (if faceMtl[j] == m then [tris[j]] else [])
  {
    assert faceMtl[..j + 1][..j] == faceMtl[..j] && tris[..j + 1][..j] == tris[..j];
  }

  lemma CornerSetAppend(tris: seq<Triangle>, t: Triangle)
    ensures CornerSet(tris + [t]) == CornerSet(tris) + {t.v0, t.v1, t.v2}
  {
    assert (tris + [t])[..|tris|] == tris;
  }

  /** One step of the j loop keeps both of its invariants. */
  lemma CollectStep(faceMtl: seq<nat>, tris: seq<Triangle>, m: nat, j: nat, mt: seq<Triangle>, corners: set<nat>)
    requires |faceMtl| == |tris| && j < |tris|
    requires mt == MaterialTriangles(faceMtl[..j], tris[..j], m) && corners == CornerSet(mt)
    ensures faceMtl[j] == m ==>
              && mt + [tris[j]] == MaterialTriangles(faceMtl[..j + 1], tris[..j + 1], m)
              && corners + {tris[j].v0, tris[j].v1, tris[j].v2} == CornerSet(mt + [tris[j]])
    ensures faceMtl[j] != m ==> mt == MaterialTriangles(faceMtl[..j + 1], tris[..j + 1], m)
  {
    MaterialTrianglesStep(faceMtl, tris, m, j);
    if faceMtl[j] == m {
      CornerSetAppend(mt, tris[j]);
    } else {
      assert mt + [] == mt;
    }
  }

  /** The j loop of one material: its triangles and its index_set. */
  method CollectMaterial(faceMtl: seq<nat>, tris: seq<Triangle>, m: nat)
    returns (mtlTris: seq<Triangle>, indexSet: set<nat>)
    requires |faceMtl| == |tris|
    ensures mtlTris == MaterialTriangles(faceMtl, tris, m)
    ensures indexSet == CornerSet(mtlTris)
  {
    mtlTris, indexSet := [], {};
    var j := 0;
    while j < |tris|
      invariant 0 <= j <= |tris|
      invariant mtlTris == MaterialTriangles(faceMtl[..j], tris[..j], m)
      invariant indexSet == CornerSet(mtlTris)
    {
      CollectStep(faceMtl, tris, m, j, mtlTris, indexSet);
      if faceMtl[j] == m {
        indexSet := indexSet + {tris[j].v0, tris[j].v1, tris[j].v2};
        mtlTris := mtlTris + [tris[j]];
      }
      j := j + 1;
    }
    assert faceMtl[..j] == faceMtl && tris[..j] == tris;
  }

  /** Iterating a std::set<int> from begin to end. */
  method IterateAscending(s: set<nat>) returns (xs: seq<nat>)
    ensures xs == Ascending(s)
  {
    xs := [];
    var rest := s;
    while rest != {}
      invariant rest <= s
      invariant xs + Ascending(rest) == Ascending(s)
      decreases |rest|
    {
      var m :| m in rest && forall x :: x in rest ==> m <= x;
      assert m == Min(rest);
      ghost var tail := Ascending(rest - {m});
      assert Ascending(rest) == [m] + tail;
      assert (xs + [m]) + tail == xs + ([m] + tail);
      xs := xs + [m];
      rest := rest - {m};
    }
  }

  /** The set iteration that numbers the vertices of one material: local
      vertex k is the global vertex xs[k], and the mapping sends xs[k] to k. */
  method RankVertices(xs: seq<nat>, vertices: seq<Vertex>) returns (localVertices: seq<Vertex>, mapping: map<nat, nat>)
    requires forall k :: 0 <= k < |xs| ==> xs[k] < |vertices|
    ensures |localVertices| == |xs|
    ensures forall k :: 0 <= k < |xs| ==> localVertices[k] == vertices[xs[k]]
    ensures forall x :: x in mapping <==> x in xs
    ensures forall x :: x in mapping ==> mapping[x] < |xs| && xs[mapping[x]] == x
  {
    localVertices := [];
    mapping := map[];
    var newIndex := 0;
    while newIndex < |xs|
      invariant 0 <= newIndex <= |xs|
      invariant |localVertices| == newIndex
      invariant forall k :: 0 <= k < newIndex ==> localVertices[k] == vertices[xs[k]]
      invariant forall x :: x in mapping <==> x in xs[..newIndex]
      invariant forall x :: x in mapping ==> mapping[x] < newIndex && xs[mapping[x]] == x
    {
      localVertices := localVertices + [vertices[xs[newIndex]]];
      mapping := mapping[xs[newIndex] := newIndex];
      assert xs[..newIndex + 1] == xs[..newIndex] + [xs[newIndex]];
      newIndex := newIndex + 1;
    }
    assert xs[..newIndex] == xs;
  }

  /** The remap loop: every corner of every triangle goes through the mapping. */
  method RemapTriangles(mtlTris: seq<Triangle>, xs: seq<nat>, mapping: map<nat, nat>) returns (localTris: seq<Triangle>)
    requires forall t, k :: 0 <= t < |mtlTris| && 0 <= k < 3 ==> mtlTris[t].Corner(k) in mapping
    requires forall x :: x in mapping ==> mapping[x] < |xs| && xs[mapping[x]] == x
    ensures |localTris| == |mtlTris|
    ensures forall t :: 0 <= t < |localTris| ==> localTris[t].InRange(|xs|)
    ensures forall t, k :: 0 <= t < |localTris| && 0 <= k < 3 ==>
              localTris[t].Corner(k) < |xs| && xs[localTris[t].Corner(k)] == mtlTris[t].Corner(k)
  {
    localTris := [];
    var j := 0;
    while j < |mtlTris|
      invariant 0 <= j <= |mtlTris|
      invariant |localTris| == j
      invariant forall t :: 0 <= t < j ==> localTris[t].InRange(|xs|)
      invariant forall t, k :: 0 <= t < j && 0 <= k < 3 ==>
                  localTris[t].Corner(k) < |xs| && xs[localTris[t].Corner(k)] == mtlTris[t].Corner(k)
    {
      var src := mtlTris[j];
      assert src.Corner(0) in mapping && src.Corner(1) in mapping && src.Corner(2) in mapping;
      var t := Triangle(mapping[src.v0], mapping[src.v1], mapping[src.v2]);
      assert forall k :: 0 <= k < 3 ==> xs[t.Corner(k)] == src.Corner(k);
      localTris := localTris + [t];
      j := j + 1;
    }
  }

  /** The local vertex list and the remapped triangles of one material: the
      vertices follow the ascending index set, and every corner is rewritten
      through the mapping from global index to rank. */
  method BuildSubMesh(mtlTris: seq<Triangle>, indexSet: set<nat>, vertices: seq<Vertex>)
    returns (localVertices: seq<Vertex>, localTris: seq<Triangle>)
    requires indexSet == CornerSet(mtlTris)
    requires forall x :: x in indexSet ==> x < |vertices|
    ensures |localVertices| == |indexSet|
    ensures forall k :: 0 <= k < |localVertices| ==>
              Ascending(indexSet)[k] < |vertices| && localVertices[k] == vertices[Ascending(indexSet)[k]]
    ensures |localTris| == |mtlTris|
    ensures forall t :: 0 <= t < |localTris| ==> localTris[t].InRange(|localVertices|)
    ensures forall t, k :: 0 <= t < |localTris| && 0 <= k < 3 ==>
              localTris[t].Corner(k) < |localVertices| && Ascending(indexSet)[localTris[t].Corner(k)] == mtlTris[t].Corner(k)
  {
    CornerSetIsCorners(mtlTris);
    var xs := IterateAscending(indexSet);
    AscendingIsSortedSet(indexSet);
    assert forall k :: 0 <= k < |xs| ==> xs[k] in indexSet;
    var mapping;
    localVertices, mapping := RankVertices(xs, vertices);
    localTris := RemapTriangles(mtlTris, xs, mapping);
  }

  /** The generated name of a material's mesh (the text form is not modelled). */
  function SubMeshName(objName: string, base: nat, numMtls: nat, m: nat): (n: MeshName)
    requires base <= m
    ensures numMtls - base <= 1 ==> n == ObjectName(objName)
    ensures numMtls - base > 1 ==> n == PerMaterialName(objName, m - base)
  {
    if numMtls - base <= 1 then ObjectName(objName) else PerMaterialName(objName, m - base)
  }

  /** What the partition of material m must hold: its triangles, with the
      ascending set of their corners as vertex list, in local indices. */
  ghost predicate IsSubMeshOf(o: ObjectInfo, faceMtl: seq<nat>, tris: seq<Triangle>, vertices: seq<Vertex>)
    requires |faceMtl| == |tris|
  {
    var mt := MaterialTriangles(faceMtl, tris, o.mtlId);
    mt != [] && SubMeshShape(o, mt, Ascending(CornerSet(mt)), vertices)
  }

  /** o holds the triangles mt in local indices into the vertices listed by g. */
  ghost predicate SubMeshShape(o: ObjectInfo, mt: seq<Triangle>, g: seq<nat>, vertices: seq<Vertex>) {
    && |o.vertices| == |g|
    && (forall k :: 0 <= k < |g| ==> g[k] < |vertices| && o.vertices[k] == vertices[g[k]])
    && |o.triangles| == |mt|
    && IndicesInRange(o)
    && (forall t, k :: 0 <= t < |mt| && 0 <= k < 3 ==> g[o.triangles[t].Corner(k)] == mt[t].Corner(k))
  }

  ghost predicate HasFaces(faceMtl: seq<nat>, m: nat) {
    exists f :: 0 <= f < |faceMtl| && faceMtl[f] == m
  }

  ghost predicate HasMesh(objs: seq<ObjectInfo>, m: nat) {
    exists p :: 0 <= p < |objs| && objs[p].mtlId == m
  }

  /** The corners of a material's triangles index the welded vertices. */
  lemma CornersOfMaterialInRange(faceMtl: seq<nat>, tris: seq<Triangle>, n: nat, m: nat)
    requires |faceMtl| == |tris|
    requires forall t :: 0 <= t < |tris| ==> tris[t].InRange(n)
    ensures forall x :: x in CornerSet(MaterialTriangles(faceMtl, tris, m)) ==> x < n
  {
    var mt := MaterialTriangles(faceMtl, tris, m);
    MaterialTrianglesSelect(faceMtl, tris, m);
    CornerSetIsCorners(mt);
    forall x | x in CornerSet(mt) ensures x < n {
      var t, k :| 0 <= t < |mt| && 0 <= k < 3 && mt[t].Corner(k) == x;
      assert mt[t] in tris;
    }
  }

  /** One iteration of the i loop: the mesh of material m, if m has triangles. */
  method MaterialMesh(objName: string, elements: seq<VertexElement>, faceMtl: seq<nat>,
                      tris: seq<Triangle>, vertices: seq<Vertex>, base: nat, numMtls: nat, m: nat)
    returns (r: Option<ObjectInfo>)
    requires |faceMtl| == |tris|
    requires forall t :: 0 <= t < |tris| ==> tris[t].InRange(|vertices|)
    requires base <= m
    ensures r.Some? <==> HasFaces(faceMtl, m)
    ensures r.Some? ==> r.value.mtlId == m && IsSubMeshOf(r.value, faceMtl, tris, vertices)
    ensures r.Some? ==> r.value.name == SubMeshName(objName, base, numMtls, m) && r.value.vertexElements == elements
  {
    var mtlTris, indexSet := CollectMaterial(faceMtl, tris, m);
    MaterialTrianglesSelect(faceMtl, tris, m);
    if mtlTris == [] {
      return None;
    }
    CornersOfMaterialInRange(faceMtl, tris, |vertices|, m);
    var localVertices, localTris := BuildSubMesh(mtlTris, indexSet, vertices);
    var o := ObjectInfo(SubMeshName(objName, base, numMtls, m), m, elements, localVertices, localTris);
    assert SubMeshShape(o, mtlTris, Ascending(indexSet), vertices);
    return Some(o);
  }

  lemma AppendKeepsIds(objs: seq<ObjectInfo>, o: ObjectInfo, base: nat, i: nat)
    requires forall p :: 0 <= p < |objs| ==> base <= objs[p].mtlId < i
    requires forall p, q :: 0 <= p < q < |objs| ==> objs[p].mtlId < objs[q].mtlId
    requires o.mtlId == i && base <= i
    ensures forall p :: 0 <= p < |objs + [o]| ==> base <= (objs + [o])[p].mtlId < i + 1
    ensures forall p, q :: 0 <= p < q < |objs + [o]| ==> (objs + [o])[p].mtlId < (objs + [o])[q].mtlId
  {
  }

  lemma AppendKeepsHasMesh(objs: seq<ObjectInfo>, o: ObjectInfo, faceMtl: seq<nat>, base: nat, i: nat)
    requires forall p :: 0 <= p < |objs| ==> objs[p].mtlId < i
    requires forall m :: base <= m < i ==> (HasFaces(faceMtl, m) <==> HasMesh(objs, m))
    requires o.mtlId == i && HasFaces(faceMtl, i)
    ensures forall m :: base <= m < i + 1 ==> (HasFaces(faceMtl, m) <==> HasMesh(objs + [o], m))
  {
    var r := objs + [o];
    assert r[|objs|] == o;
    forall m | base <= m < i ensures HasMesh(r, m) <==> HasMesh(objs, m) {
      if HasMesh(r, m) {
        var p :| 0 <= p < |r| && r[p].mtlId == m;
        assert p < |objs| && objs[p].mtlId == m;
      }
      if HasMesh(objs, m) {
        var p :| 0 <= p < |objs| && objs[p].mtlId == m;
        assert r[p].mtlId == m;
      }
    }
  }

  lemma NoMeshBelow(objs: seq<ObjectInfo>, faceMtl: seq<nat>, base: nat, i: nat)
    requires forall p :: 0 <= p < |objs| ==> objs[p].mtlId < i
    requires forall m :: base <= m < i ==> (HasFaces(faceMtl, m) <==> HasMesh(objs, m))
    requires !HasFaces(faceMtl, i)
    ensures forall m :: base <= m < i + 1 ==> (HasFaces(faceMtl, m) <==> HasMesh(objs, m))
  {
  }

  lemma AppendKeepsSubMeshes(objs: seq<ObjectInfo>, o: ObjectInfo, faceMtl: seq<nat>, tris: seq<Triangle>, vertices: seq<Vertex>)
    requires |faceMtl| == |tris|
    requires forall p :: 0 <= p < |objs| ==> IsSubMeshOf(objs[p], faceMtl, tris, vertices)
    requires IsSubMeshOf(o, faceMtl, tris, vertices)
    ensures forall p :: 0 <= p < |objs + [o]| ==> IsSubMeshOf((objs + [o])[p], faceMtl, tris, vertices)
  {
    forall p | 0 <= p < |objs + [o]| ensures IsSubMeshOf((objs + [o])[p], faceMtl, tris, vertices) {
      if p < |objs| {
        assert (objs + [o])[p] == objs[p];
      }
    }
  }

  lemma AppendKeepsNames(objs: seq<ObjectInfo>, o: ObjectInfo, objName: string, elements: seq<VertexElement>,
                         base: nat, numMtls: nat)
    requires forall p :: 0 <= p < |objs| ==> base <= objs[p].mtlId
    requires forall p :: 0 <= p < |objs| ==>
               objs[p].name == SubMeshName(objName, base, numMtls, objs[p].mtlId) && objs[p].vertexElements == elements
    requires base <= o.mtlId && o.name == SubMeshName(objName, base, numMtls, o.mtlId) && o.vertexElements == elements
    ensures forall p :: 0 <= p < |objs + [o]| ==>
              && base <= (objs + [o])[p].mtlId
              && (objs + [o])[p].name == SubMeshName(objName, base, numMtls, (objs + [o])[p].mtlId)
              && (objs + [o])[p].vertexElements == elements
  {
  }

  /** The i loop over the node's materials [base, numMtls): one mesh per
      material that has triangles, in ascending material order. */
  method PartitionByMaterial(objName: string, elements: seq<VertexElement>, faceMtl: seq<nat>,
                             tris: seq<Triangle>, vertices: seq<Vertex>, base: nat, numMtls: nat)
    returns (objs: seq<ObjectInfo>)
    requires |faceMtl| == |tris|
    requires forall t :: 0 <= t < |tris| ==> tris[t].InRange(|vertices|)
    requires base <= numMtls
    ensures forall p :: 0 <= p < |objs| ==> base <= objs[p].mtlId < numMtls
    ensures forall p, q :: 0 <= p < q < |objs| ==> objs[p].mtlId < objs[q].mtlId
    ensures forall m :: base <= m < numMtls ==> (HasFaces(faceMtl, m) <==> HasMesh(objs, m))
    ensures forall p :: 0 <= p < |objs| ==> IsSubMeshOf(objs[p], faceMtl, tris, vertices)
    ensures forall p :: 0 <= p < |objs| ==>
              objs[p].name == SubMeshName(objName, base, numMtls, objs[p].mtlId) && objs[p].vertexElements == elements
  {
    objs := [];
    var i := base;
    while i < numMtls
      invariant base <= i <= numMtls
      invariant forall p :: 0 <= p < |objs| ==> base <= objs[p].mtlId < i
      invariant forall p, q :: 0 <= p < q < |objs| ==> objs[p].mtlId < objs[q].mtlId
      invariant forall m :: base <= m < i ==> (HasFaces(faceMtl, m) <==> HasMesh(objs, m))
      invariant forall p :: 0 <= p < |objs| ==> IsSubMeshOf(objs[p], faceMtl, tris, vertices)
      invariant forall p :: 0 <= p < |objs| ==>
                  objs[p].name == SubMeshName(objName, base, numMtls, objs[p].mtlId) && objs[p].vertexElements == elements
    {
      var o := MaterialMesh(objName, elements, faceMtl, tris, vertices, base, numMtls, i);
      if o.Some? {
        AppendKeepsIds(objs, o.value, base, i);
        AppendKeepsHasMesh(objs, o.value, faceMtl, base, i);
        AppendKeepsSubMeshes(objs, o.value, faceMtl, tris, vertices);
        AppendKeepsNames(objs, o.value, objName, elements, base, numMtls);
        objs := objs + [o.value];
      } else {
        NoMeshBelow(objs, faceMtl, base, i);
      }
      i := i + 1;
    }
  }
}
