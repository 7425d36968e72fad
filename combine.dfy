/**
  combine_meshes_with_same_mtl: for every material, the meshes that use it
  are grouped by their vertex element lists, and each group becomes one mesh
  whose vertex list is the concatenation of the group's vertex lists and
  whose triangles are the group's triangles with their indices raised by the
  number of vertices that precede their mesh.
 */
module Combine {
  import opened MeshTypes

  // ---------------------------------------------------------------------
  // Concatenating meshes
  // ---------------------------------------------------------------------

  /** A triangle list with every index raised by base. */
  function Shifted(ts: seq<Triangle>, base: nat): (r: seq<Triangle>)
    ensures |r| == |ts|
  {
    if ts == [] then []
    else
      var t := ts[|ts| - 1];
      Shifted(ts[..|ts| - 1], base) + [Triangle(t.v0 + base, t.v1 + base, t.v2 + base)]
  }

  /** Each shifted corner is the original corner plus base. */
  lemma {:induction false} ShiftedCorners(ts: seq<Triangle>, base: nat)
    ensures forall t, k :: 0 <= t < |ts| && 0 <= k < 3 ==> Shifted(ts, base)[t].Corner(k) == ts[t].Corner(k) + base
  {
    if ts != [] {
      ShiftedCorners(ts[..|ts| - 1], base);
      forall t, k | 0 <= t < |ts| - 1 && 0 <= k < 3
        ensures Shifted(ts, base)[t].Corner(k) == ts[t].Corner(k) + base
      {
        assert Shifted(ts, base)[t] == Shifted(ts[..|ts| - 1], base)[t];
        assert ts[..|ts| - 1][t] == ts[t];
      }
    }
  }

  /** The vertex lists of the parts, one after the other. */
  function MergedVertices(parts: seq<ObjectInfo>): seq<Vertex> {
    if parts == [] then [] else MergedVertices(parts[..|parts| - 1]) + parts[|parts| - 1].vertices
  }

  /** The triangle lists of the parts, each raised by the number of vertices before its part. */
  function MergedTriangles(parts: seq<ObjectInfo>): seq<Triangle> {
    if parts == [] then []
    else
      var init := parts[..|parts| - 1];
      MergedTriangles(init) + Shifted(parts[|parts| - 1].triangles, |MergedVertices(init)|)
  }

  ghost predicate AllInRange(parts: seq<ObjectInfo>) {
    forall p :: 0 <= p < |parts| ==> IndicesInRange(parts[p])
  }

  /** Rebasing keeps every index inside the concatenated vertex list. */
  lemma {:induction false} MergedInRange(parts: seq<ObjectInfo>)
    requires AllInRange(parts)
    ensures forall t :: 0 <= t < |MergedTriangles(parts)| ==> MergedTriangles(parts)[t].InRange(|MergedVertices(parts)|)
  {
    if parts != [] {
      var init := parts[..|parts| - 1];
      var last := parts[|parts| - 1];
      assert AllInRange(init) by {
        forall p | 0 <= p < |init| ensures IndicesInRange(init[p]) {
          assert init[p] == parts[p];
        }
      }
      MergedInRange(init);
      var base := |MergedVertices(init)|;
      var sh := Shifted(last.triangles, base);
      ShiftedCorners(last.triangles, base);
      forall t | 0 <= t < |MergedTriangles(parts)| ensures MergedTriangles(parts)[t].InRange(|MergedVertices(parts)|) {
        if t < |MergedTriangles(init)| {
          assert MergedTriangles(parts)[t] == MergedTriangles(init)[t];
        } else {
          var u := t - |MergedTriangles(init)|;
          assert MergedTriangles(parts)[t] == sh[u];
          assert IndicesInRange(last);
          assert last.triangles[u].InRange(|last.vertices|);
          assert sh[u].Corner(0) == last.triangles[u].Corner(0) + base;
          assert sh[u].Corner(1) == last.triangles[u].Corner(1) + base;
          assert sh[u].Corner(2) == last.triangles[u].Corner(2) + base;
        }
      }
    }
  }

  /** Rebasing is correct: triangle t of part q, found in the merged list
      after the triangles of the parts before it, names through every corner
      the same vertex it named in its own mesh. */
  lemma MergedCornersResolve(parts: seq<ObjectInfo>, q: nat, t: nat, k: nat)
    requires q < |parts| && IndicesInRange(parts[q])
    requires t < |parts[q].triangles| && k < 3
    ensures |MergedTriangles(parts[..q])| + t < |MergedTriangles(parts)|
    ensures MergedTriangles(parts)[|MergedTriangles(parts[..q])| + t].Corner(k) < |MergedVertices(parts)|
    ensures MergedVertices(parts)[MergedTriangles(parts)[|MergedTriangles(parts[..q])| + t].Corner(k)]
            == parts[q].vertices[parts[q].triangles[t].Corner(k)]
  {
    var init, last := parts[..q], parts[q];
    var upto := init + [last];
    assert upto <= parts by {
      assert forall i :: 0 <= i < |upto| ==> upto[i] == parts[i];
    }
    LastPartCornersResolve(init, last, t, k);
    MergedPrefix(upto, parts);
    ResolveThroughPrefix(MergedTriangles(upto), MergedVertices(upto), MergedTriangles(parts), MergedVertices(parts),
                         |MergedTriangles(init)| + t, k);
  }

  /** A corner that resolves in a prefix of the lists resolves the same way in the whole lists. */
  lemma ResolveThroughPrefix(ts: seq<Triangle>, vs: seq<Vertex>, ts': seq<Triangle>, vs': seq<Vertex>, i: nat, k: nat)
    requires ts <= ts' && vs <= vs' && i < |ts| && k < 3 && ts[i].Corner(k) < |vs|
    ensures i < |ts'| && ts'[i].Corner(k) < |vs'| && vs'[ts'[i].Corner(k)] == vs[ts[i].Corner(k)]
  {
    assert ts'[i] == ts[i];
    assert vs'[ts[i].Corner(k)] == vs[ts[i].Corner(k)];
  }

  /** The merged lists of a prefix of the parts begin the merged lists of all of them. */
  lemma {:induction false} MergedPrefix(pre: seq<ObjectInfo>, parts: seq<ObjectInfo>)
    requires pre <= parts
    ensures MergedTriangles(pre) <= MergedTriangles(parts)
    ensures MergedVertices(pre) <= MergedVertices(parts)
    decreases |parts|
  {
    if |pre| == |parts| {
      assert pre == parts;
    } else {
      var init := parts[..|parts| - 1];
      assert pre <= init by {
        assert forall i :: 0 <= i < |pre| ==> pre[i] == init[i];
      }
      MergedPrefix(pre, init);
      assert MergedTriangles(parts) == MergedTriangles(init) + Shifted(parts[|parts| - 1].triangles, |MergedVertices(init)|);
      assert MergedVertices(parts) == MergedVertices(init) + parts[|parts| - 1].vertices;
    }
  }

  /** The case of MergedCornersResolve for the last part. */
  lemma LastPartCornersResolve(init: seq<ObjectInfo>, last: ObjectInfo, t: nat, k: nat)
    requires IndicesInRange(last) && t < |last.triangles| && k < 3
    ensures |MergedTriangles(init)| + t < |MergedTriangles(init + [last])|
    ensures MergedTriangles(init + [last])[|MergedTriangles(init)| + t].Corner(k) < |MergedVertices(init + [last])|
    ensures MergedVertices(init + [last])[MergedTriangles(init + [last])[|MergedTriangles(init)| + t].Corner(k)]
            == last.vertices[last.triangles[t].Corner(k)]
  {
    var parts := init + [last];
    assert parts[..|parts| - 1] == init && parts[|parts| - 1] == last;
    var base := |MergedVertices(init)|;
    var sh := Shifted(last.triangles, base);
    assert MergedTriangles(parts) == MergedTriangles(init) + sh;
    assert MergedVertices(parts) == MergedVertices(init) + last.vertices;
    ShiftedCorners(last.triangles, base);
    assert MergedTriangles(parts)[|MergedTriangles(init)| + t] == sh[t];
    var c := sh[t].Corner(k);
    assert c == last.triangles[t].Corner(k) + base;
    assert last.triangles[t].InRange(|last.vertices|);
    assert MergedVertices(parts)[c] == last.vertices[c - base];
  }


  // ---------------------------------------------------------------------
  // The grouping the pass computes
  // ---------------------------------------------------------------------

  /** The distinct vertex element lists of the meshes of material m, in
      order of first occurrence (ves). */
  function GroupsOf(objs: seq<ObjectInfo>, m: nat): seq<seq<VertexElement>> {
    if objs == [] then []
    else
      var g := GroupsOf(objs[..|objs| - 1], m);
      var last := objs[|objs| - 1];
      if last.mtlId == m && last.vertexElements !in g then g + [last.vertexElements] else g
  }

  /** The meshes of material m with vertex element list ve, in input order. */
  function Members(objs: seq<ObjectInfo>, m: nat, ve: seq<VertexElement>): seq<ObjectInfo> {
    if objs == [] then []
    else
      var last := objs[|objs| - 1];
      Members(objs[..|objs| - 1], m, ve) + (if last.mtlId == m && last.vertexElements == ve then [last] else [])
  }

  ghost predicate UsesElements(objs: seq<ObjectInfo>, m: nat, ve: seq<VertexElement>) {
    exists k :: 0 <= k < |objs| && objs[k].mtlId == m && objs[k].vertexElements == ve
  }

  /** ves holds each vertex element list of material m exactly once. */
  lemma {:induction false} GroupsOfIsDistinctUses(objs: seq<ObjectInfo>, m: nat)
    ensures NoDuplicates(GroupsOf(objs, m))
    ensures forall ve :: ve in GroupsOf(objs, m) <==> UsesElements(objs, m, ve)
  {
    if objs != [] {
      var init := objs[..|objs| - 1];
      GroupsOfIsDistinctUses(init, m);
      forall ve ensures UsesElements(objs, m, ve) <==> UsesElements(init, m, ve) || (objs[|objs| - 1].mtlId == m && objs[|objs| - 1].vertexElements == ve) {
        if UsesElements(objs, m, ve) {
          var k :| 0 <= k < |objs| && objs[k].mtlId == m && objs[k].vertexElements == ve;
          if k < |objs| - 1 {
            assert init[k] == objs[k];
          }
        }
        if UsesElements(init, m, ve) {
          var k :| 0 <= k < |init| && init[k].mtlId == m && init[k].vertexElements == ve;
          assert objs[k] == init[k];
        }
      }
    }
  }

  /** The mesh a group becomes. */
  function GroupMesh(objs: seq<ObjectInfo>, m: nat, ves: seq<seq<VertexElement>>, g: nat): ObjectInfo
    requires g < |ves|
  {
    var parts := Members(objs, m, ves[g]);
    ObjectInfo(CombinedName(m, g), m, ves[g], MergedVertices(parts), MergedTriangles(parts))
  }

  /** The (material, group) keys of the output for materials [0, n): the
      groups of material 0 in order, then those of material 1, and so on. */
  function CombinedKeys(objs: seq<ObjectInfo>, n: nat): (r: seq<(nat, nat)>)
    ensures forall i :: 0 <= i < |r| ==> r[i].0 < n && r[i].1 < |GroupsOf(objs, r[i].0)|
  {
    if n == 0 then []
    else CombinedKeys(objs, n - 1) + seq(|GroupsOf(objs, n - 1)|, g => (n - 1, g))
  }

  /** The output of the pass for materials [0, n): one merged mesh per key. */
  function Combined(objs: seq<ObjectInfo>, n: nat): seq<ObjectInfo> {
    var keys := CombinedKeys(objs, n);
    seq(|keys|, i requires 0 <= i < |keys| => GroupMesh(objs, keys[i].0, GroupsOf(objs, keys[i].0), keys[i].1))
  }

  /** Going from n to n + 1 materials appends the meshes of material n. */
  lemma CombinedStep(objs: seq<ObjectInfo>, n: nat, meshes: seq<ObjectInfo>)
    requires |meshes| == |GroupsOf(objs, n)|
    requires forall g :: 0 <= g < |meshes| ==> meshes[g] == GroupMesh(objs, n, GroupsOf(objs, n), g)
    ensures Combined(objs, n + 1) == Combined(objs, n) + meshes
  {
    var prev := CombinedKeys(objs, n);
    var keys := CombinedKeys(objs, n + 1);
    assert keys == prev + seq(|GroupsOf(objs, n)|, g => (n, g));
    forall i | 0 <= i < |keys| ensures Combined(objs, n + 1)[i] == (Combined(objs, n) + meshes)[i] {
      if i < |prev| {
        assert keys[i] == prev[i];
      } else {
        assert keys[i] == (n, i - |prev|);
      }
    }
  }

  // ---------------------------------------------------------------------
  // What the combined output holds
  // ---------------------------------------------------------------------

  /** What every output mesh is: the merged group of its material and
      vertex element list, named after the material and the group's place. */
  ghost predicate IsGroupOutput(objs: seq<ObjectInfo>, n: nat, o: ObjectInfo) {
    var ves := GroupsOf(objs, o.mtlId);
    var parts := Members(objs, o.mtlId, o.vertexElements);
    && o.mtlId < n
    && o.name.CombinedName? && o.name.mtl == o.mtlId
    && o.name.group < |ves| && ves[o.name.group] == o.vertexElements
    && parts != []
    && o.vertices == MergedVertices(parts)
    && o.triangles == MergedTriangles(parts)
  }

  /** Members holds exactly the meshes of material m with list ve. */
  lemma {:induction false} MembersAreTheMatching(objs: seq<ObjectInfo>, m: nat, ve: seq<VertexElement>)
    ensures forall o :: o in Members(objs, m, ve) ==> o in objs && o.mtlId == m && o.vertexElements == ve
    ensures forall k :: 0 <= k < |objs| && objs[k].mtlId == m && objs[k].vertexElements == ve ==>
              objs[k] in Members(objs, m, ve)
  {
    if objs != [] {
      var init := objs[..|objs| - 1];
      MembersAreTheMatching(init, m, ve);
      forall k | 0 <= k < |objs| - 1 && objs[k].mtlId == m && objs[k].vertexElements == ve
        ensures objs[k] in Members(objs, m, ve)
      {
        assert init[k] == objs[k];
      }
    }
  }

  lemma GroupMeshIsOutput(objs: seq<ObjectInfo>, m: nat, n: nat, g: nat)
    requires m < n && g < |GroupsOf(objs, m)|
    ensures IsGroupOutput(objs, n, GroupMesh(objs, m, GroupsOf(objs, m), g))
  {
    var ves := GroupsOf(objs, m);
    GroupsOfIsDistinctUses(objs, m);
    assert ves[g] in ves;
    var k :| 0 <= k < |objs| && objs[k].mtlId == m && objs[k].vertexElements == ves[g];
    MembersAreTheMatching(objs, m, ves[g]);
    assert objs[k] in Members(objs, m, ves[g]);
  }

  /** Every output mesh is the merged group of its key. */
  lemma CombinedOutputs(objs: seq<ObjectInfo>, n: nat)
    ensures forall p :: 0 <= p < |Combined(objs, n)| ==> IsGroupOutput(objs, n, Combined(objs, n)[p])
  {
    var keys := CombinedKeys(objs, n);
    forall p | 0 <= p < |Combined(objs, n)| ensures IsGroupOutput(objs, n, Combined(objs, n)[p]) {
      GroupMeshIsOutput(objs, keys[p].0, n, keys[p].1);
    }
  }

  /** The keys ascend: by material, and by group within a material. */
  lemma {:induction false} CombinedKeysAscend(objs: seq<ObjectInfo>, n: nat)
    ensures forall p, q :: 0 <= p < q < |CombinedKeys(objs, n)| ==>
              CombinedKeys(objs, n)[p].0 < CombinedKeys(objs, n)[q].0
              || (CombinedKeys(objs, n)[p].0 == CombinedKeys(objs, n)[q].0 && CombinedKeys(objs, n)[p].1 < CombinedKeys(objs, n)[q].1)
  {
    if n > 0 {
      CombinedKeysAscend(objs, n - 1);
      var prev := CombinedKeys(objs, n - 1);
      var keys := CombinedKeys(objs, n);
      assert keys == prev + seq(|GroupsOf(objs, n - 1)|, g => (n - 1, g));
      forall p, q | 0 <= p < q < |keys|
        ensures keys[p].0 < keys[q].0 || (keys[p].0 == keys[q].0 && keys[p].1 < keys[q].1)
      {
        if q < |prev| {
          assert keys[p] == prev[p] && keys[q] == prev[q];
        } else if p < |prev| {
          assert keys[p] == prev[p];
        }
      }
    }
  }

  /** The output is ordered by material id, and no material has two meshes
      with the same vertex element list. */
  lemma CombinedKeysAscendAndDiffer(objs: seq<ObjectInfo>, n: nat)
    ensures forall p, q :: 0 <= p < q < |Combined(objs, n)| ==>
              Combined(objs, n)[p].mtlId <= Combined(objs, n)[q].mtlId
              && (Combined(objs, n)[p].mtlId == Combined(objs, n)[q].mtlId ==>
                    Combined(objs, n)[p].vertexElements != Combined(objs, n)[q].vertexElements)
  {
    var keys := CombinedKeys(objs, n);
    var c := Combined(objs, n);
    CombinedKeysAscend(objs, n);
    forall p, q | 0 <= p < q < |c|
      ensures c[p].mtlId <= c[q].mtlId && (c[p].mtlId == c[q].mtlId ==> c[p].vertexElements != c[q].vertexElements)
    {
      if keys[p].0 == keys[q].0 {
        GroupsOfIsDistinctUses(objs, keys[p].0);
      }
    }
  }

  ghost predicate HasGroup(out: seq<ObjectInfo>, m: nat, ve: seq<VertexElement>) {
    exists p :: 0 <= p < |out| && out[p].mtlId == m && out[p].vertexElements == ve
  }

  /** Every group of a material below n has its key in the output. */
  lemma {:induction false} CombinedKeysCover(objs: seq<ObjectInfo>, n: nat, m: nat, g: nat)
    requires m < n && g < |GroupsOf(objs, m)|
    ensures exists p :: 0 <= p < |CombinedKeys(objs, n)| && CombinedKeys(objs, n)[p] == (m, g)
  {
    var prev := CombinedKeys(objs, n - 1);
    var keys := CombinedKeys(objs, n);
    assert keys == prev + seq(|GroupsOf(objs, n - 1)|, g => (n - 1, g));
    if m < n - 1 {
      CombinedKeysCover(objs, n - 1, m, g);
      var p :| 0 <= p < |prev| && prev[p] == (m, g);
      assert keys[p] == prev[p];
    } else {
      assert keys[|prev| + g] == (m, g);
    }
  }

  /** Every mesh whose material is one of the n is merged into some output
      mesh of its material and vertex element list. */
  lemma CombinedCoversInputs(objs: seq<ObjectInfo>, n: nat)
    ensures forall k :: 0 <= k < |objs| && objs[k].mtlId < n ==>
              HasGroup(Combined(objs, n), objs[k].mtlId, objs[k].vertexElements)
  {
    var keys := CombinedKeys(objs, n);
    var c := Combined(objs, n);
    forall k | 0 <= k < |objs| && objs[k].mtlId < n
      ensures HasGroup(c, objs[k].mtlId, objs[k].vertexElements)
    {
      var m := objs[k].mtlId;
      var ves := GroupsOf(objs, m);
      GroupsOfIsDistinctUses(objs, m);
      assert UsesElements(objs, m, objs[k].vertexElements);
      var g :| 0 <= g < |ves| && ves[g] == objs[k].vertexElements;
      CombinedKeysCover(objs, n, m, g);
      var p :| 0 <= p < |keys| && keys[p] == (m, g);
      assert c[p].mtlId == m && c[p].vertexElements == ves[g];
    }
  }

  // ---------------------------------------------------------------------
  // Counts
  // ---------------------------------------------------------------------

  datatype Measure = VertexCount | TriangleCount

  function SizeOf(o: ObjectInfo, c: Measure): nat {
    if c == VertexCount then |o.vertices| else |o.triangles|
  }

  /** The vertices, or the triangles, of all the meshes together. */
  function TotalSize(objs: seq<ObjectInfo>, c: Measure): nat {
    if objs == [] then 0 else TotalSize(objs[..|objs| - 1], c) + SizeOf(objs[|objs| - 1], c)
  }

  /** The same, over the meshes whose material is below n. */
  function SizeBelow(objs: seq<ObjectInfo>, n: nat, c: Measure): nat {
    if objs == [] then 0
    else SizeBelow(objs[..|objs| - 1], n, c) + (if objs[|objs| - 1].mtlId < n then SizeOf(objs[|objs| - 1], c) else 0)
  }

  /** The same, over the meshes of material m. */
  function SizeOfMaterial(objs: seq<ObjectInfo>, m: nat, c: Measure): nat {
    if objs == [] then 0
    else SizeOfMaterial(objs[..|objs| - 1], m, c) + (if objs[|objs| - 1].mtlId == m then SizeOf(objs[|objs| - 1], c) else 0)
  }

  lemma {:induction false} TotalSizeAppend(a: seq<ObjectInfo>, b: seq<ObjectInfo>, c: Measure)
    ensures TotalSize(a + b, c) == TotalSize(a, c) + TotalSize(b, c)
    decreases |b|
  {
    if b != [] {
      var b' := b[..|b| - 1];
      assert (a + b)[..|a + b| - 1] == a + b';
      assert (a + b)[|a + b| - 1] == b[|b| - 1];
      TotalSizeAppend(a, b', c);
    } else {
      assert a + b == a;
    }
  }

  /** Concatenation loses and adds nothing: the merged lists are as long as
      the parts' lists together. */
  lemma {:induction false} MergedSize(parts: seq<ObjectInfo>)
    ensures |MergedVertices(parts)| == TotalSize(parts, VertexCount)
    ensures |MergedTriangles(parts)| == TotalSize(parts, TriangleCount)
  {
    if parts != [] {
      MergedSize(parts[..|parts| - 1]);
    }
  }

  /** The sizes of the first count group meshes of material m. */
  function GroupSizes(objs: seq<ObjectInfo>, m: nat, ves: seq<seq<VertexElement>>, count: nat, c: Measure): nat
    requires count <= |ves|
  {
    if count == 0 then 0 else GroupSizes(objs, m, ves, count - 1, c) + MemberSize(objs, m, ves[count - 1], c)
  }

  /** The size of the meshes of material m with list ve, summed mesh by mesh. */
  function MemberSize(objs: seq<ObjectInfo>, m: nat, ve: seq<VertexElement>, c: Measure): nat {
    if objs == [] then 0
    else
      var last := objs[|objs| - 1];
      MemberSize(objs[..|objs| - 1], m, ve, c) + (if last.mtlId == m && last.vertexElements == ve then SizeOf(last, c) else 0)
  }

  /** It is the size of the group's member list. */
  lemma {:induction false} MemberSizeIsTotal(objs: seq<ObjectInfo>, m: nat, ve: seq<VertexElement>, c: Measure)
    ensures MemberSize(objs, m, ve, c) == TotalSize(Members(objs, m, ve), c)
  {
    if objs != [] {
      MemberSizeIsTotal(objs[..|objs| - 1], m, ve, c);
      MembersStep(objs, m, ve, c);
    }
  }

  /** One more mesh adds its size to its own group only. */
  lemma MembersStep(objs: seq<ObjectInfo>, m: nat, ve: seq<VertexElement>, c: Measure)
    requires objs != []
    ensures TotalSize(Members(objs, m, ve), c)
            == TotalSize(Members(objs[..|objs| - 1], m, ve), c)
               + (if objs[|objs| - 1].mtlId == m && objs[|objs| - 1].vertexElements == ve then SizeOf(objs[|objs| - 1], c) else 0)
  {
    var last := objs[|objs| - 1];
    var extra := if last.mtlId == m && last.vertexElements == ve then [last] else [];
    TotalSizeAppend(Members(objs[..|objs| - 1], m, ve), extra, c);
    assert TotalSize([last], c) == SizeOf(last, c) by {
      assert [last][..0] == [];
    }
  }

  /** What one mesh adds to the first count group sizes of material m: its
      size once for every group among them whose list is its own. */
  function Share(o: ObjectInfo, m: nat, ves: seq<seq<VertexElement>>, count: nat, c: Measure): nat
    requires count <= |ves|
  {
    if count == 0 then 0
    else Share(o, m, ves, count - 1, c) + (if o.mtlId == m && o.vertexElements == ves[count - 1] then SizeOf(o, c) else 0)
  }

  /** The group sizes after one more mesh: each group grows by what the
      mesh adds to it. */
  lemma {:induction false} GroupSizesStep(objs: seq<ObjectInfo>, m: nat, ves: seq<seq<VertexElement>>, count: nat, c: Measure)
    requires objs != [] && count <= |ves|
    ensures GroupSizes(objs, m, ves, count, c)
            == GroupSizes(objs[..|objs| - 1], m, ves, count, c) + Share(objs[|objs| - 1], m, ves, count, c)
  {
    if count > 0 {
      GroupSizesStep(objs, m, ves, count - 1, c);
    }
  }

  /** When the lists are distinct, a mesh of material m counts in exactly the
      group of its own list, and a mesh of another material in none. */
  lemma {:induction false} ShareOfDistinct(o: ObjectInfo, m: nat, ves: seq<seq<VertexElement>>, count: nat, c: Measure)
    requires NoDuplicates(ves) && count <= |ves|
    ensures Share(o, m, ves, count, c) == if o.mtlId == m && o.vertexElements in ves[..count] then SizeOf(o, c) else 0
  {
    if count > 0 {
      ShareOfDistinct(o, m, ves, count - 1, c);
      InPrefixStep(ves, count, o.vertexElements);
    } else {
      assert ves[..count] == [];
    }
  }

  /** Growing a prefix of a list without duplicates by one adds exactly its last element. */
  lemma InPrefixStep<T>(s: seq<T>, count: nat, x: T)
    requires NoDuplicates(s) && 0 < count <= |s|
    ensures x in s[..count] <==> x in s[..count - 1] || x == s[count - 1]
    ensures !(x in s[..count - 1] && x == s[count - 1])
  {
    var pre := s[..count - 1];
    assert s[..count] == pre + [s[count - 1]];
    forall g | 0 <= g < |pre| ensures pre[g] != s[count - 1] {
      assert pre[g] == s[g];
    }
  }

  /** Grouped by the lists of ves, the meshes of material m keep their size. */
  lemma {:induction false} GroupSizesAreMaterialSize(objs: seq<ObjectInfo>, m: nat, ves: seq<seq<VertexElement>>, c: Measure)
    requires NoDuplicates(ves)
    requires forall k :: 0 <= k < |objs| && objs[k].mtlId == m ==> objs[k].vertexElements in ves
    ensures GroupSizes(objs, m, ves, |ves|, c) == SizeOfMaterial(objs, m, c)
  {
    if objs == [] {
      GroupSizesOfNothing(m, ves, |ves|, c);
    } else {
      var init := objs[..|objs| - 1];
      forall k | 0 <= k < |init| && init[k].mtlId == m ensures init[k].vertexElements in ves {
        assert init[k] == objs[k];
      }
      GroupSizesAreMaterialSize(init, m, ves, c);
      GroupSizesStep(objs, m, ves, |ves|, c);
      ShareOfDistinct(objs[|objs| - 1], m, ves, |ves|, c);
      assert ves[..|ves|] == ves;
    }
  }

  lemma {:induction false} GroupSizesOfNothing(m: nat, ves: seq<seq<VertexElement>>, count: nat, c: Measure)
    requires count <= |ves|
    ensures GroupSizes([], m, ves, count, c) == 0
  {
    if count > 0 {
      GroupSizesOfNothing(m, ves, count - 1, c);
    }
  }

  /** The meshes of the groups of material m, in group order. */
  function GroupMeshes(objs: seq<ObjectInfo>, m: nat): seq<ObjectInfo> {
    var ves := GroupsOf(objs, m);
    seq(|ves|, g requires 0 <= g < |ves| => GroupMesh(objs, m, ves, g))
  }

  /** The first count of them weigh the first count group sizes. */
  lemma {:induction false} GroupMeshesSize(objs: seq<ObjectInfo>, m: nat, count: nat, c: Measure)
    requires count <= |GroupsOf(objs, m)|
    ensures TotalSize(GroupMeshes(objs, m)[..count], c) == GroupSizes(objs, m, GroupsOf(objs, m), count, c)
  {
    var s := GroupMeshes(objs, m);
    if count > 0 {
      var pre := s[..count];
      assert pre[..count - 1] == s[..count - 1];
      assert TotalSize(pre, c) == TotalSize(s[..count - 1], c) + SizeOf(s[count - 1], c);
      GroupMeshesSize(objs, m, count - 1, c);
      GroupMeshSize(objs, m, count - 1, c);
    } else {
      assert s[..count] == [];
    }
  }

  /** One group mesh weighs what its members weigh together. */
  lemma GroupMeshSize(objs: seq<ObjectInfo>, m: nat, g: nat, c: Measure)
    requires g < |GroupsOf(objs, m)|
    ensures SizeOf(GroupMeshes(objs, m)[g], c) == MemberSize(objs, m, GroupsOf(objs, m)[g], c)
  {
    MergedSize(Members(objs, m, GroupsOf(objs, m)[g]));
    MemberSizeIsTotal(objs, m, GroupsOf(objs, m)[g], c);
  }

  lemma {:induction false} SizeBelowStep(objs: seq<ObjectInfo>, n: nat, c: Measure)
    ensures SizeBelow(objs, n + 1, c) == SizeBelow(objs, n, c) + SizeOfMaterial(objs, n, c)
  {
    if objs != [] {
      SizeBelowStep(objs[..|objs| - 1], n, c);
    }
  }

  /** The meshes material m contributes weigh what its input meshes weigh. */
  lemma MaterialKeepsCounts(objs: seq<ObjectInfo>, m: nat, c: Measure)
    ensures TotalSize(GroupMeshes(objs, m), c) == SizeOfMaterial(objs, m, c)
  {
    var ves := GroupsOf(objs, m);
    GroupMeshesSize(objs, m, |ves|, c);
    assert GroupMeshes(objs, m)[..|ves|] == GroupMeshes(objs, m);
    GroupsOfIsDistinctUses(objs, m);
    forall k | 0 <= k < |objs| && objs[k].mtlId == m ensures objs[k].vertexElements in ves {
      assert UsesElements(objs, m, objs[k].vertexElements);
    }
    GroupSizesAreMaterialSize(objs, m, ves, c);
  }

  /** combine_meshes_with_same_mtl keeps every vertex and every triangle of
      the meshes whose material is below n. */
  lemma {:induction false} CombinedKeepsCounts(objs: seq<ObjectInfo>, n: nat, c: Measure)
    ensures TotalSize(Combined(objs, n), c) == SizeBelow(objs, n, c)
  {
    if n == 0 {
      SizeBelowNothing(objs, c);
    } else {
      var m := n - 1;
      var meshes := GroupMeshes(objs, m);
      CombinedStep(objs, m, meshes);
      CombinedKeepsCounts(objs, m, c);
      TotalSizeAppend(Combined(objs, m), meshes, c);
      MaterialKeepsCounts(objs, m, c);
      SizeBelowStep(objs, m, c);
    }
  }

  lemma {:induction false} SizeBelowNothing(objs: seq<ObjectInfo>, c: Measure)
    ensures SizeBelow(objs, 0, c) == 0
  {
    if objs != [] {
      SizeBelowNothing(objs[..|objs| - 1], c);
    }
  }

  /** When every material id is below n, nothing is lost at all. */
  lemma {:induction false} SizeBelowAll(objs: seq<ObjectInfo>, n: nat, c: Measure)
    requires forall k :: 0 <= k < |objs| ==> objs[k].mtlId < n
    ensures SizeBelow(objs, n, c) == TotalSize(objs, c)
  {
    if objs != [] {
      var init := objs[..|objs| - 1];
      forall k | 0 <= k < |init| ensures init[k].mtlId < n {
        assert init[k] == objs[k];
      }
      SizeBelowAll(init, n, c);
    }
  }

  /** Every output mesh indexes only its own vertex list when the inputs do. */
  lemma CombinedInRange(objs: seq<ObjectInfo>, n: nat)
    requires AllInRange(objs)
    ensures AllInRange(Combined(objs, n))
  {
    var c := Combined(objs, n);
    CombinedOutputs(objs, n);
    forall p | 0 <= p < |c| ensures IndicesInRange(c[p]) {
      var o := c[p];
      assert IsGroupOutput(objs, n, o);
      var parts := Members(objs, o.mtlId, o.vertexElements);
      MembersAreTheMatching(objs, o.mtlId, o.vertexElements);
      assert AllInRange(parts) by {
        forall q | 0 <= q < |parts| ensures IndicesInRange(parts[q]) {
          assert parts[q] in parts;
          var k :| 0 <= k < |objs| && objs[k] == parts[q];
        }
      }
      MergedInRange(parts);
    }
  }

  // ---------------------------------------------------------------------
  // The loops of combine_meshes_with_same_mtl
  // ---------------------------------------------------------------------

  /** The meshes selected by the (mesh, group) pairs whose group is g. */
  function Selected(objs: seq<ObjectInfo>, oids: seq<(nat, nat)>, g: nat): seq<ObjectInfo>
    requires forall t :: 0 <= t < |oids| ==> oids[t].0 < |objs|
  {
    if oids == [] then []
    else
      var last := oids[|oids| - 1];
      Selected(objs, oids[..|oids| - 1], g) + (if last.1 == g then [objs[last.0]] else [])
  }

  /** The innermost k loop: the position of ve among the groups found so far. */
  method FindGroup(ves: seq<seq<VertexElement>>, ve: seq<VertexElement>) returns (found: bool, k: nat)
    ensures found ==> k < |ves| && ves[k] == ve
    ensures !found ==> ve !in ves
  {
    k := 0;
    while k < |ves|
      invariant 0 <= k <= |ves|
      invariant forall k' :: 0 <= k' < k ==> ves[k'] != ve
    {
      if ves[k] == ve {
        return true, k;
      }
      k := k + 1;
    }
    return false, k;
  }

  ghost predicate PairsValid(objs: seq<ObjectInfo>, oids: seq<(nat, nat)>, groups: nat) {
    forall t :: 0 <= t < |oids| ==> oids[t].0 < |objs| && oids[t].1 < groups
  }

  /** A group index no pair carries selects nothing. */
  lemma {:induction false} SelectedBeyond(objs: seq<ObjectInfo>, oids: seq<(nat, nat)>, g: nat)
    requires PairsValid(objs, oids, g)
    ensures Selected(objs, oids, g) == []
  {
    if oids != [] {
      SelectedBeyond(objs, oids[..|oids| - 1], g);
    }
  }

  lemma {:induction false} MembersAbsent(objs: seq<ObjectInfo>, m: nat, ve: seq<VertexElement>)
    requires !UsesElements(objs, m, ve)
    ensures Members(objs, m, ve) == []
  {
    if objs != [] {
      var init := objs[..|objs| - 1];
      forall k | 0 <= k < |init| ensures !(init[k].mtlId == m && init[k].vertexElements == ve) {
        assert objs[k] == init[k];
      }
      MembersAbsent(init, m, ve);
    }
  }

  /** The invariant of the j loop after the first j meshes. */
  ghost predicate GroupedUpTo(objs: seq<ObjectInfo>, m: nat, j: nat, ves: seq<seq<VertexElement>>, oids: seq<(nat, nat)>)
    requires j <= |objs|
  {
    && ves == GroupsOf(objs[..j], m)
    && PairsValid(objs, oids, |ves|)
    && forall g :: 0 <= g < |ves| ==> Selected(objs, oids, g) == Members(objs[..j], m, ves[g])
  }

  /** One step of the j loop: mesh j joins the group of its vertex element
      list, opening a new group when the list is new. */
  method GroupOne(objs: seq<ObjectInfo>, m: nat, j: nat, ves: seq<seq<VertexElement>>, oids: seq<(nat, nat)>)
    returns (ves': seq<seq<VertexElement>>, oids': seq<(nat, nat)>)
    requires j < |objs| && GroupedUpTo(objs, m, j, ves, oids)
    ensures GroupedUpTo(objs, m, j + 1, ves', oids')
  {
    ves', oids' := ves, oids;
    if objs[j].mtlId == m {
      var found, k := FindGroup(ves, objs[j].vertexElements);
      if found {
        oids' := oids + [(j, k)];
        JoinExistingGroup(objs, m, j, ves, oids, k);
      } else {
        oids' := oids + [(j, |ves|)];
        ves' := ves + [objs[j].vertexElements];
        OpenNewGroup(objs, m, j, ves, oids);
      }
    } else {
      SkipOtherMaterial(objs, m, j, ves, oids);
    }
  }

  lemma JoinExistingGroup(objs: seq<ObjectInfo>, m: nat, j: nat, ves: seq<seq<VertexElement>>, oids: seq<(nat, nat)>, k: nat)
    requires j < |objs| && GroupedUpTo(objs, m, j, ves, oids)
    requires objs[j].mtlId == m && k < |ves| && ves[k] == objs[j].vertexElements
    ensures GroupedUpTo(objs, m, j + 1, ves, oids + [(j, k)])
  {
    var prefix := objs[..j + 1];
    assert prefix[..j] == objs[..j];
    assert prefix[j] == objs[j];
    GroupsOfIsDistinctUses(objs[..j], m);
    var oids' := oids + [(j, k)];
    assert oids'[..|oids|] == oids;
    forall g | 0 <= g < |ves| ensures Selected(objs, oids', g) == Members(prefix, m, ves[g]) {
      assert (g == k) <==> (ves[g] == objs[j].vertexElements);
    }
  }

  lemma OpenNewGroup(objs: seq<ObjectInfo>, m: nat, j: nat, ves: seq<seq<VertexElement>>, oids: seq<(nat, nat)>)
    requires j < |objs| && GroupedUpTo(objs, m, j, ves, oids)
    requires objs[j].mtlId == m && objs[j].vertexElements !in ves
    ensures GroupedUpTo(objs, m, j + 1, ves + [objs[j].vertexElements], oids + [(j, |ves|)])
  {
    var prefix := objs[..j + 1];
    assert prefix[..j] == objs[..j];
    assert prefix[j] == objs[j];
    GroupsOfIsDistinctUses(objs[..j], m);
    var oids' := oids + [(j, |ves|)];
    var ves' := ves + [objs[j].vertexElements];
    assert oids'[..|oids|] == oids;
    MembersAbsent(objs[..j], m, objs[j].vertexElements);
    SelectedBeyond(objs, oids, |ves|);
    forall g | 0 <= g < |ves'| ensures Selected(objs, oids', g) == Members(prefix, m, ves'[g]) {
      if g < |ves| {
        assert ves'[g] == ves[g] != objs[j].vertexElements;
      }
    }
  }

  lemma SkipOtherMaterial(objs: seq<ObjectInfo>, m: nat, j: nat, ves: seq<seq<VertexElement>>, oids: seq<(nat, nat)>)
    requires j < |objs| && GroupedUpTo(objs, m, j, ves, oids)
    requires objs[j].mtlId != m
    ensures GroupedUpTo(objs, m, j + 1, ves, oids)
  {
    var prefix := objs[..j + 1];
    assert prefix[..j] == objs[..j];
    assert prefix[j] == objs[j];
    forall g | 0 <= g < |ves| ensures Selected(objs, oids, g) == Members(prefix, m, ves[g]) {
    }
  }

  /** The j loop over the meshes for material m: ves and oids. */
  method GroupByElements(objs: seq<ObjectInfo>, m: nat) returns (ves: seq<seq<VertexElement>>, oids: seq<(nat, nat)>)
    ensures ves == GroupsOf(objs, m)
    ensures PairsValid(objs, oids, |ves|)
    ensures forall g :: 0 <= g < |ves| ==> Selected(objs, oids, g) == Members(objs, m, ves[g])
  {
    ves, oids := [], [];
    var j := 0;
    while j < |objs|
      invariant 0 <= j <= |objs|
      invariant GroupedUpTo(objs, m, j, ves, oids)
    {
      ves, oids := GroupOne(objs, m, j, ves, oids);
      j := j + 1;
    }
    assert objs[..j] == objs;
  }

  /** The foreach over one mesh's triangles: each is copied with its indices raised by base. */
  method AppendShifted(ts: seq<Triangle>, tris: seq<Triangle>, base: nat) returns (r: seq<Triangle>)
    ensures r == ts + Shifted(tris, base)
  {
    r := ts;
    var t := 0;
    while t < |tris|
      invariant 0 <= t <= |tris|
      invariant r == ts + Shifted(tris[..t], base)
    {
      assert tris[..t + 1][..t] == tris[..t];
      var tri := tris[t];
      r := r + [Triangle(tri.v0 + base, tri.v1 + base, tri.v2 + base)];
      t := t + 1;
    }
    assert tris[..t] == tris;
  }

  /** The foreach over oids for group g: the group's meshes are appended in order. */
  method MergeGroup(objs: seq<ObjectInfo>, oids: seq<(nat, nat)>, g: nat) returns (vs: seq<Vertex>, ts: seq<Triangle>)
    requires forall t :: 0 <= t < |oids| ==> oids[t].0 < |objs|
    ensures vs == MergedVertices(Selected(objs, oids, g))
    ensures ts == MergedTriangles(Selected(objs, oids, g))
  {
    vs, ts := [], [];
    var t := 0;
    while t < |oids|
      invariant 0 <= t <= |oids|
      invariant vs == MergedVertices(Selected(objs, oids[..t], g))
      invariant ts == MergedTriangles(Selected(objs, oids[..t], g))
    {
      assert oids[..t + 1][..t] == oids[..t];
      var base := |vs|;
      var (j, k) := oids[t];
      if k == g {
        ghost var sel := Selected(objs, oids[..t], g);
        assert Selected(objs, oids[..t + 1], g) == sel + [objs[j]];
        assert (sel + [objs[j]])[..|sel|] == sel;
        vs := vs + objs[j].vertices;
        ts := AppendShifted(ts, objs[j].triangles, base);
      } else {
        assert Selected(objs, oids[..t + 1], g) == Selected(objs, oids[..t], g);
      }
      t := t + 1;
    }
    assert oids[..t] == oids;
  }

  /** One iteration of the second j loop: the mesh of group g. */
  method MeshOfGroup(objs: seq<ObjectInfo>, m: nat, ves: seq<seq<VertexElement>>, oids: seq<(nat, nat)>, g: nat)
    returns (o: ObjectInfo)
    requires g < |ves| && PairsValid(objs, oids, |ves|)
    requires Selected(objs, oids, g) == Members(objs, m, ves[g])
    ensures o == GroupMesh(objs, m, ves, g)
  {
    var vs, ts := MergeGroup(objs, oids, g);
    o := ObjectInfo(CombinedName(m, g), m, ves[g], vs, ts);
  }

  /** The second j loop for material m: one mesh per group. */
  method BuildGroupMeshes(objs: seq<ObjectInfo>, m: nat, ves: seq<seq<VertexElement>>, oids: seq<(nat, nat)>)
    returns (out: seq<ObjectInfo>)
    requires PairsValid(objs, oids, |ves|)
    requires forall g :: 0 <= g < |ves| ==> Selected(objs, oids, g) == Members(objs, m, ves[g])
    ensures |out| == |ves|
    ensures forall g :: 0 <= g < |ves| ==> out[g] == GroupMesh(objs, m, ves, g)
  {
    out := [];
    var g := 0;
    while g < |ves|
      invariant 0 <= g <= |ves|
      invariant |out| == g
      invariant forall g' :: 0 <= g' < g ==> out[g'] == GroupMesh(objs, m, ves, g')
    {
      var o := MeshOfGroup(objs, m, ves, oids, g);
      out := out + [o];
      g := g + 1;
    }
  }

  /** combine_meshes_with_same_mtl over materials [0, numMtls). */
  method CombineMeshesWithSameMtl(objs: seq<ObjectInfo>, numMtls: nat) returns (r: seq<ObjectInfo>)
    ensures r == Combined(objs, numMtls)
  {
    r := [];
    var i := 0;
    while i < numMtls
      invariant 0 <= i <= numMtls
      invariant r == Combined(objs, i)
    {
      var ves, oids := GroupByElements(objs, i);
      var meshes := BuildGroupMeshes(objs, i, ves, oids);
      CombinedStep(objs, i, meshes);
      r := r + meshes;
      i := i + 1;
    }
  }
}
