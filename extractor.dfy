/**
  meshml_extractor: the exporter object. It accumulates the materials, the
  meshes and the joints of the scene node by node (extract_object), and
  write_xml tidies them (remove_redundant_joints, remove_redundant_mtls,
  then combine_meshes_with_same_mtl or sort_meshes_by_mtl) and fixes the
  joint order before emitting the file.
 */
module Extractor {
  import opened MeshTypes
  import opened Smoothing
  import opened Welding
  import opened Skinning
  import opened Partition
  import opened Joints
  import opened Materials
  import opened Combine
  import opened SortMeshes

  // ---------------------------------------------------------------------
  // extract_object, on values
  // ---------------------------------------------------------------------

  /** obj_vertex_elements: position, normal, tangent and binormal, one
      texture coordinate per UV channel, and the blend weight and index pair
      when the vertices carry binds. */
  ghost predicate ElementsLayout(r: seq<VertexElement>, numChannels: nat, skinned: bool) {
    && |r| == 4 + numChannels + (if skinned then 2 else 0)
    && r[..4] == [VertexElement(Position, 0, 3), VertexElement(Normal, 0, 3),
                  VertexElement(Tangent, 0, 3), VertexElement(Binormal, 0, 3)]
    && (forall i :: 0 <= i < numChannels ==> r[4 + i] == VertexElement(TextureCoord, i, 2))
    && (skinned ==> r[4 + numChannels..] == [VertexElement(BlendWeight, 0, 4), VertexElement(BlendIndex, 0, 4)])
  }

  method VertexElementsFor(numChannels: nat, skinned: bool) returns (r: seq<VertexElement>)
    ensures ElementsLayout(r, numChannels, skinned)
    ensures NoDuplicates(r)
  {
    r := [VertexElement(Position, 0, 3), VertexElement(Normal, 0, 3),
          VertexElement(Tangent, 0, 3), VertexElement(Binormal, 0, 3)];
    var i := 0;
    while i < numChannels
      invariant 0 <= i <= numChannels && |r| == 4 + i
      invariant r[..4] == [VertexElement(Position, 0, 3), VertexElement(Normal, 0, 3),
                           VertexElement(Tangent, 0, 3), VertexElement(Binormal, 0, 3)]
      invariant forall k :: 0 <= k < i ==> r[4 + k] == VertexElement(TextureCoord, k, 2)
    {
      r := r + [VertexElement(TextureCoord, i, 2)];
      i := i + 1;
    }
    ghost var r0 := r;
    if skinned {
      r := r + [VertexElement(BlendWeight, 0, 4), VertexElement(BlendIndex, 0, 4)];
    }
    forall a, b | 0 <= a < b < |r| ensures r[a] != r[b] {
      if b < 4 {
        assert r[a] == r[..4][a] && r[b] == r[..4][b];
      } else if b < |r0| {
        assert r[b] == r0[b] == VertexElement(TextureCoord, b - 4, 2);
        if a < 4 {
          assert r[a] == r[..4][a];
        } else {
          assert r[a] == r0[a] == VertexElement(TextureCoord, a - 4, 2);
        }
      } else {
        assert r[b].usage == BlendWeight || r[b].usage == BlendIndex;
        if a < 4 {
          assert r[a] == r[..4][a];
        } else if a < |r0| {
          assert r[a] == r0[a] == VertexElement(TextureCoord, a - 4, 2);
        }
      }
    }
  }

  /** The bind lists of the positions: each the accumulated contributions of
      the skinning modifiers, then limited to jointsPerVer influences. With
      jointsPerVer == 0 the modifiers are not read and every list is empty. */
  method PositionBinds(contributions: seq<seq<Contribution>>, fallback: string, rootName: string, jointsPerVer: nat)
    returns (r: seq<seq<Bind>>)
    ensures |r| == |contributions|
    ensures forall p :: 0 <= p < |r| ==> |r[p]| == jointsPerVer
    ensures forall p :: 0 <= p < |r| ==> LimitedBinds(contributions[p], fallback, rootName, jointsPerVer, r[p])
  {
    r := [];
    var p := 0;
    while p < |contributions|
      invariant 0 <= p <= |contributions| && |r| == p
      invariant forall q :: 0 <= q < p ==> |r[q]| == jointsPerVer
      invariant forall q :: 0 <= q < p ==> LimitedBinds(contributions[q], fallback, rootName, jointsPerVer, r[q])
    {
      var binds: seq<Bind> := [];
      if jointsPerVer > 0 {
        binds := AccumulateBinds(contributions[p]);
        binds := LimitInfluences(binds, fallback, rootName, jointsPerVer);
      }
      r := r + [binds];
      p := p + 1;
    }
  }

  /** Material m of [base, numMtls) is the folded material of some face. */
  ghost predicate UsedMaterial(faces: seq<Face>, base: nat, numMtls: nat, m: nat)
    requires base <= numMtls
  {
    exists f :: 0 <= f < |faces| && FoldMaterialId(faces[f].matId, base, numMtls) == m
  }

  /** The position index of every corner slot, corners in v[2], v[1], v[0] order. */
  ghost function FacePositions(faces: seq<Face>): (r: seq<nat>)
    ensures |r| == 3 * |faces|
  {
    seq(3 * |faces|, r requires 0 <= r < 3 * |faces| => faces[r / 3].Vert(2 - r % 3))
  }

  /** The folded material id of every face. */
  ghost function FaceMaterials(faces: seq<Face>, base: nat, numMtls: nat): (r: seq<nat>)
    requires base <= numMtls
    ensures |r| == |faces|
  {
    seq(|faces|, f requires 0 <= f < |faces| => FoldMaterialId(faces[f].matId, base, numMtls))
  }

  /** The smoothing clusters of every position after all faces are placed. */
  ghost function FaceClusters(faces: seq<Face>, numPositions: nat): (r: seq<seq<seq<nat>>>)
    ensures |r| == numPositions
  {
    seq(numPositions, p requires 0 <= p => ClustersAt(faces, p, |faces|))
  }

  /** vertices and tris weld the node's corners, keyed by position, UV
      indices (the positions when there is no UV channel) and smoothing
      cluster, each vertex carrying its position's limited bind list. */
  ghost predicate NodeWeld(faces: seq<Face>, numPositions: nat, texIndices: seq<seq<nat>>,
                           contributions: seq<seq<Contribution>>, flip: bool, fallback: string, rootName: string,
                           jointsPerVer: nat, vertices: seq<Vertex>, tris: seq<Triangle>)
  {
    var pos := FacePositions(faces);
    exists positionBinds: seq<seq<Bind>> ::
      && |positionBinds| == numPositions == |contributions|
      && (forall p :: 0 <= p < numPositions ==>
            LimitedBinds(contributions[p], fallback, rootName, jointsPerVer, positionBinds[p]))
      && Welded(pos, ChannelsOrFallback(texIndices, pos), FaceClusters(faces, numPositions),
                positionBinds, |faces|, flip, vertices, tris)
  }

  /** The meshes split from a welded node: one per used material, in
      material order, each the part of vertices and tris that has that
      material, named after the node and carrying the node's vertex layout. */
  ghost predicate NodeParts(meshes: seq<ObjectInfo>, name: string, faces: seq<Face>, texIndices: seq<seq<nat>>,
                            jointsPerVer: nat, base: nat, numMtls: nat, vertices: seq<Vertex>, tris: seq<Triangle>)
    requires base <= numMtls
  {
    && |tris| == |faces|
    && (forall p :: 0 <= p < |meshes| ==> base <= meshes[p].mtlId < numMtls)
    && (forall p, q :: 0 <= p < q < |meshes| ==> meshes[p].mtlId < meshes[q].mtlId)
    && (forall m :: base <= m < numMtls ==> (UsedMaterial(faces, base, numMtls, m) <==> HasMesh(meshes, m)))
    && (forall p :: 0 <= p < |meshes| ==>
          && IsSubMeshOf(meshes[p], FaceMaterials(faces, base, numMtls), tris, vertices)
          && meshes[p].name == SubMeshName(name, base, numMtls, meshes[p].mtlId)
          && ElementsLayout(meshes[p].vertexElements, NumChannels(texIndices), jointsPerVer > 0))
  }

  /** What extract_object appends for one node: nothing for a node without
      faces, otherwise the parts of the node's welded mesh. */
  ghost predicate NodeOutput(meshes: seq<ObjectInfo>, name: string, faces: seq<Face>, numPositions: nat,
                             texIndices: seq<seq<nat>>, contributions: seq<seq<Contribution>>, flip: bool,
                             fallback: string, rootName: string, jointsPerVer: nat, base: nat, numMtls: nat)
    requires base <= numMtls
  {
    if faces == [] then meshes == []
    else exists vertices: seq<Vertex>, tris: seq<Triangle> ::
      && NodeWeld(faces, numPositions, texIndices, contributions, flip, fallback, rootName, jointsPerVer, vertices, tris)
      && NodeParts(meshes, name, faces, texIndices, jointsPerVer, base, numMtls, vertices, tris)
  }

  /** The number of UV channels the welded vertices carry. */
  function NumChannels(texIndices: seq<seq<nat>>): nat {
    if texIndices == [] then 1 else |texIndices|
  }

  /** Every mesh a node appends names one of its materials and indexes its
      own vertices. */
  lemma NodeOutputInRange(meshes: seq<ObjectInfo>, name: string, faces: seq<Face>, numPositions: nat,
                          texIndices: seq<seq<nat>>, contributions: seq<seq<Contribution>>, flip: bool,
                          fallback: string, rootName: string, jointsPerVer: nat, base: nat, numMtls: nat)
    requires base <= numMtls
    requires NodeOutput(meshes, name, faces, numPositions, texIndices, contributions, flip, fallback, rootName,
                        jointsPerVer, base, numMtls)
    ensures MtlIdsBelow(meshes, numMtls) && AllInRange(meshes)
  {
    if faces != [] {
      var vertices, tris :|
        && NodeWeld(faces, numPositions, texIndices, contributions, flip, fallback, rootName, jointsPerVer, vertices, tris)
        && NodeParts(meshes, name, faces, texIndices, jointsPerVer, base, numMtls, vertices, tris);
      forall p | 0 <= p < |meshes| ensures meshes[p].mtlId < numMtls && IndicesInRange(meshes[p]) {
        assert IsSubMeshOf(meshes[p], FaceMaterials(faces, base, numMtls), tris, vertices);
      }
    }
  }

  /** The corner half of extract_object: the faces are read, the smoothing
      clusters built, the bind lists limited and the corners welded. */
  method WeldNode(faces: seq<Face>, numPositions: nat, texIndices: seq<seq<nat>>,
                  contributions: seq<seq<Contribution>>, flip: bool, fallback: string, rootName: string,
                  jointsPerVer: nat, base: nat, numMtls: nat)
    returns (faceMtl: seq<nat>, tex: seq<seq<nat>>, vertices: seq<Vertex>, tris: seq<Triangle>)
    requires base <= numMtls
    requires forall f :: 0 <= f < |faces| ==> faces[f].v0 < numPositions && faces[f].v1 < numPositions && faces[f].v2 < numPositions
    requires forall c :: 0 <= c < |texIndices| ==> |texIndices[c]| == 3 * |faces|
    requires |contributions| == numPositions
    ensures faceMtl == FaceMaterials(faces, base, numMtls)
    ensures tex == ChannelsOrFallback(texIndices, FacePositions(faces))
    ensures NodeWeld(faces, numPositions, texIndices, contributions, flip, fallback, rootName, jointsPerVer, vertices, tris)
    ensures |tris| == |faces| && forall t :: 0 <= t < |tris| ==> tris[t].InRange(|vertices|)
    ensures faces != [] ==> |vertices| > 0
    ensures forall v :: 0 <= v < |vertices| ==> |vertices[v].binds| == jointsPerVer
  {
    var faceSm, posIndices;
    faceSm, faceMtl, posIndices := ReadFaces(faces, base, numMtls);
    assert posIndices == FacePositions(faces);
    assert faceMtl == FaceMaterials(faces, base, numMtls);
    tex := ChannelsOrFallback(texIndices, posIndices);
    var clusters := BuildSmoothingClusters(faces, numPositions);
    assert clusters == FaceClusters(faces, numPositions);
    assert WeldInputs(posIndices, tex, clusters, |faces|) by {
      forall r | 0 <= r < 3 * |faces| ensures posIndices[r] < |clusters| && InSomeCluster(clusters[posIndices[r]], r / 3) {
        assert posIndices[r] == faces[r / 3].Vert(2 - r % 3);
      }
    }
    var positionBinds := PositionBinds(contributions, fallback, rootName, jointsPerVer);
    vertices, tris := WeldMesh(posIndices, tex, clusters, positionBinds, |faces|, flip);
    if faces != [] {
      assert CornerAt(tris, 0) < |vertices|;
    }
  }

  /** The material half of extract_object: the vertex layout, then one mesh
      per material of the node that has faces. */
  method SplitNode(name: string, faces: seq<Face>, texIndices: seq<seq<nat>>, jointsPerVer: nat, base: nat, numMtls: nat,
                   faceMtl: seq<nat>, tex: seq<seq<nat>>, vertices: seq<Vertex>, tris: seq<Triangle>)
    returns (meshes: seq<ObjectInfo>)
    requires base <= numMtls && faces != []
    requires faceMtl == FaceMaterials(faces, base, numMtls)
    requires |tex| == NumChannels(texIndices)
    requires |tris| == |faces| && forall t :: 0 <= t < |tris| ==> tris[t].InRange(|vertices|)
    requires |vertices| > 0 && forall v :: 0 <= v < |vertices| ==> |vertices[v].binds| == jointsPerVer
    ensures NodeParts(meshes, name, faces, texIndices, jointsPerVer, base, numMtls, vertices, tris)
  {
    var elements := VertexElementsFor(|tex|, vertices[0].binds != []);
    meshes := PartitionByMaterial(name, elements, faceMtl, tris, vertices, base, numMtls);
    forall m | base <= m < numMtls ensures UsedMaterial(faces, base, numMtls, m) <==> HasFaces(faceMtl, m) {
      if UsedMaterial(faces, base, numMtls, m) {
        var f :| 0 <= f < |faces| && FoldMaterialId(faces[f].matId, base, numMtls) == m;
        assert faceMtl[f] == m;
      }
    }
  }

  /** The body of extract_object once the host has been queried. */
  method ExtractMeshes(name: string, faces: seq<Face>, numPositions: nat, texIndices: seq<seq<nat>>,
                       contributions: seq<seq<Contribution>>, flip: bool, fallback: string, rootName: string,
                       jointsPerVer: nat, base: nat, numMtls: nat)
    returns (meshes: seq<ObjectInfo>)
    requires base <= numMtls
    requires forall f :: 0 <= f < |faces| ==> faces[f].v0 < numPositions && faces[f].v1 < numPositions && faces[f].v2 < numPositions
    requires forall c :: 0 <= c < |texIndices| ==> |texIndices[c]| == 3 * |faces|
    requires |contributions| == numPositions
    ensures NodeOutput(meshes, name, faces, numPositions, texIndices, contributions, flip, fallback, rootName,
                       jointsPerVer, base, numMtls)
  {
    if faces == [] {
      return [];
    }
    var faceMtl, tex, vertices, tris := WeldNode(faces, numPositions, texIndices, contributions, flip, fallback,
                                                 rootName, jointsPerVer, base, numMtls);
    meshes := SplitNode(name, faces, texIndices, jointsPerVer, base, numMtls, faceMtl, tex, vertices, tris);
  }

  // ---------------------------------------------------------------------
  // write_xml's passes, on values
  // ---------------------------------------------------------------------

  /** objs after remove_redundant_mtls: each mesh keeps everything but its
      material id, which now names the equal material of newMtls. */
  ghost predicate Remapped(mtls: seq<Material>, objs: seq<ObjectInfo>, newMtls: seq<Material>, newObjs: seq<ObjectInfo>)
    requires forall k :: 0 <= k < |objs| ==> objs[k].mtlId < |mtls|
  {
    && |newObjs| == |objs|
    && forall k :: 0 <= k < |objs| ==>
         newObjs[k].mtlId < |newMtls| && newMtls[newObjs[k].mtlId] == mtls[objs[k].mtlId]
         && newObjs[k] == objs[k].(mtlId := newObjs[k].mtlId)
  }

  ghost predicate MtlIdsBelow(objs: seq<ObjectInfo>, n: nat) {
    forall k :: 0 <= k < |objs| ==> objs[k].mtlId < n
  }

  /** Appending meshes that satisfy the invariant keeps it. */
  lemma AppendInRange(objs: seq<ObjectInfo>, meshes: seq<ObjectInfo>, n: nat)
    requires MtlIdsBelow(objs, n) && AllInRange(objs)
    requires MtlIdsBelow(meshes, n) && AllInRange(meshes)
    ensures MtlIdsBelow(objs + meshes, n) && AllInRange(objs + meshes)
  {
    forall k | 0 <= k < |objs + meshes| ensures (objs + meshes)[k].mtlId < n && IndicesInRange((objs + meshes)[k]) {
      if k >= |objs| {
        assert (objs + meshes)[k] == meshes[k - |objs|];
      }
    }
  }

  /** The state the exporter keeps between nodes. */
  class MeshmlExtractor {
    var joints: JointMap
    var objsMtl: seq<Material>
    var objsInfo: seq<ObjectInfo>
    const jointsPerVer: nat
    const combineMeshes: bool

    /** Every mesh names one of the materials and indexes its own vertices. */
    ghost predicate Valid()
      reads this
    {
      MtlIdsBelow(objsInfo, |objsMtl|) && AllInRange(objsInfo)
    }

    /** The joints are found in the scene before any node is extracted. */
    constructor (joints: JointMap, jointsPerVer: nat, combineMeshes: bool)
      ensures Valid()
      ensures this.joints == joints && objsMtl == [] && objsInfo == []
      ensures this.jointsPerVer == jointsPerVer && this.combineMeshes == combineMeshes
    {
      this.joints := joints;
      this.objsMtl := [];
      this.objsInfo := [];
      this.jointsPerVer := jointsPerVer;
      this.combineMeshes := combineMeshes;
    }

    /** extract_object: the node's materials are appended to objs_mtl_ and
        its meshes, one per material with faces, to objs_info_. */
    method ExtractObject(name: string, nodeMtls: seq<Material>, faces: seq<Face>, numPositions: nat,
                         texIndices: seq<seq<nat>>, contributions: seq<seq<Contribution>>, flip: bool,
                         fallback: string, rootName: string)
      returns (ghost meshes: seq<ObjectInfo>)
      requires Valid()
      requires forall f :: 0 <= f < |faces| ==> faces[f].v0 < numPositions && faces[f].v1 < numPositions && faces[f].v2 < numPositions
      requires forall c :: 0 <= c < |texIndices| ==> |texIndices[c]| == 3 * |faces|
      requires |contributions| == numPositions
      modifies this
      ensures Valid()
      ensures joints == old(joints)
      ensures objsMtl == old(objsMtl) + nodeMtls
      ensures objsInfo == old(objsInfo) + meshes
      ensures NodeOutput(meshes, name, faces, numPositions, texIndices, contributions, flip,
                         fallback, rootName, jointsPerVer, |old(objsMtl)|, |objsMtl|)
    {
      var base := |objsMtl|;
      objsMtl := objsMtl + nodeMtls;
      var nodeMeshes := ExtractMeshes(name, faces, numPositions, texIndices, contributions, flip, fallback, rootName,
                                      jointsPerVer, base, |objsMtl|);
      objsInfo := objsInfo + nodeMeshes;
      meshes := nodeMeshes;
      NodeOutputInRange(nodeMeshes, name, faces, numPositions, texIndices, contributions, flip, fallback, rootName,
                        jointsPerVer, base, |objsMtl|);
      AppendInRange(old(objsInfo), nodeMeshes, |objsMtl|);
    }

    /** remove_redundant_joints. */
    method RemoveRedundantJointsPass()
      requires Acyclic(joints)
      modifies this
      ensures objsMtl == old(objsMtl) && objsInfo == old(objsInfo)
      ensures forall k :: k in joints <==> k in old(joints) && Reaches(old(joints), MeshBindNames(objsInfo), k)
      ensures forall k :: k in joints ==> joints[k] == old(joints)[k]
    {
      joints := RemoveRedundantJoints(joints, objsInfo);
    }

    /** remove_redundant_mtls. */
    method RemoveRedundantMtlsPass()
      requires Valid()
      modifies this
      ensures Valid()
      ensures joints == old(joints)
      ensures objsMtl == Distinct(old(objsMtl)) && NoDuplicates(objsMtl)
      ensures Remapped(old(objsMtl), old(objsInfo), objsMtl, objsInfo)
    {
      var newObjs;
      objsMtl, newObjs := RemoveRedundantMtls(objsMtl, objsInfo);
      assert AllInRange(newObjs) by {
        forall k | 0 <= k < |newObjs| ensures IndicesInRange(newObjs[k]) {
          assert IndicesInRange(objsInfo[k]);
        }
      }
      objsInfo := newObjs;
    }

    /** combine_meshes_with_same_mtl. */
    method CombinePass()
      requires Valid()
      modifies this
      ensures Valid()
      ensures joints == old(joints) && objsMtl == old(objsMtl)
      ensures objsInfo == Combined(old(objsInfo), |objsMtl|)
      ensures forall c :: TotalSize(objsInfo, c) == TotalSize(old(objsInfo), c)
    {
      var r := CombineMeshesWithSameMtl(objsInfo, |objsMtl|);
      forall c ensures TotalSize(r, c) == TotalSize(objsInfo, c) {
        CombinedKeepsCounts(objsInfo, |objsMtl|, c);
        SizeBelowAll(objsInfo, |objsMtl|, c);
      }
      CombinedInRange(objsInfo, |objsMtl|);
      CombinedOutputs(objsInfo, |objsMtl|);
      objsInfo := r;
    }

    /** sort_meshes_by_mtl. */
    method SortPass()
      requires Valid()
      modifies this
      ensures Valid()
      ensures joints == old(joints) && objsMtl == old(objsMtl)
      ensures |objsInfo| == |old(objsInfo)|
      ensures forall i, j :: 0 <= i < j < |objsInfo| ==> objsInfo[i].mtlId <= objsInfo[j].mtlId
      ensures StableSortOf(old(objsInfo), objsInfo)
    {
      var r := SortMeshesByMtl(objsInfo);
      ghost var order :| SortsStably(objsInfo, order)
                         && forall i :: 0 <= i < |r| ==> order[i] < |objsInfo| && r[i] == objsInfo[order[i]];
      assert MtlIdsBelow(r, |objsMtl|) && AllInRange(r) by {
        forall i | 0 <= i < |r| ensures r[i].mtlId < |objsMtl| && IndicesInRange(r[i]) {
          assert r[i] == objsInfo[order[i]];
        }
      }
      objsInfo := r;
    }

    /** write_xml, up to the emission of the file: when the file opens, the
        passes run, and the joints are put in an order in which every parent
        precedes its children and numbered by their place in it. The order
        and the numbering are what the bone chunk is written from. */
    method WriteXml(canOpen: bool) returns (order: seq<string>, ids: map<string, nat>)
      requires Valid()
      requires Acyclic(joints) && ParentsPresent(joints)
      modifies this
      ensures Valid()
      ensures !canOpen ==> joints == old(joints) && objsMtl == old(objsMtl) && objsInfo == old(objsInfo)
                           && order == [] && ids == map[]
      ensures canOpen ==> forall k :: k in joints <==> k in old(joints) && Reaches(old(joints), MeshBindNames(old(objsInfo)), k)
      ensures canOpen ==> forall k :: k in joints ==> joints[k] == old(joints)[k]
      ensures canOpen ==> objsMtl == Distinct(old(objsMtl))
      ensures canOpen && combineMeshes ==>
                exists remapped :: Remapped(old(objsMtl), old(objsInfo), objsMtl, remapped)
                                   && objsInfo == Combined(remapped, |objsMtl|)
      ensures canOpen && !combineMeshes ==>
                forall i, j :: 0 <= i < j < |objsInfo| ==> objsInfo[i].mtlId <= objsInfo[j].mtlId
      ensures canOpen && !combineMeshes ==>
                exists remapped :: Remapped(old(objsMtl), old(objsInfo), objsMtl, remapped)
                                   && StableSortOf(remapped, objsInfo)
      ensures canOpen ==> (forall n :: n in order <==> n in joints) && NoDuplicates(order)
      ensures canOpen ==> forall i :: 0 <= i < |order| ==> ParentBefore(joints, order, i)
      ensures canOpen ==> forall i :: 0 <= i < |order| ==> order[i] in ids && ids[order[i]] == i
    {
      if !canOpen {
        return [], map[];
      }
      ghost var joints0 := joints;
      ghost var used := MeshBindNames(objsInfo);
      RemoveRedundantJointsPass();
      KeptJointsClosed(joints0, used, joints);
      forall n | n in joints && joints[n].parentName != "" ensures joints[n].parentName in joints {
        assert joints[n] == joints0[n];
      }
      RemoveRedundantMtlsPass();
      ghost var remapped := objsInfo;
      if combineMeshes {
        CombinePass();
      } else {
        SortPass();
      }
      order := OrderJoints(joints);
      ids := NumberJoints(order);
    }
  }
}
