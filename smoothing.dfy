/**
  Reading the host faces and grouping the faces around each position into
  smoothing clusters (extract_object, mesh_extractor.cpp).
 */
module Smoothing {
  import opened MeshTypes

  /** The material id a face ends up with: ids are folded into the range of
      materials this node appended, [base, numMtls); with no material of its
      own the host id is kept as is. */
  function FoldMaterialId(matId: nat, base: nat, numMtls: nat): (r: nat)
    requires base <= numMtls
    ensures numMtls > base ==> base <= r < numMtls
    ensures numMtls > base && matId < numMtls - base ==> r == base + matId
    ensures numMtls == base ==> r == matId
  {
    if numMtls != base then base + matId % (numMtls - base) else matId
  }

  /** The per-face loop: smoothing masks, folded material ids, and the
      position indices of the three corners, pushed in the order v[2], v[1], v[0]. */
  method ReadFaces(faces: seq<Face>, base: nat, numMtls: nat)
    returns (faceSm: seq<bv32>, faceMtl: seq<nat>, posIndices: seq<nat>)
    requires base <= numMtls
    ensures |faceSm| == |faces| && |faceMtl| == |faces| && |posIndices| == 3 * |faces|
    ensures forall i :: 0 <= i < |faces| ==> faceSm[i] == faces[i].smGroup
    ensures forall i :: 0 <= i < |faces| ==> faceMtl[i] == FoldMaterialId(faces[i].matId, base, numMtls)
    ensures numMtls > base ==> forall i :: 0 <= i < |faces| ==> base <= faceMtl[i] < numMtls
    ensures forall r :: 0 <= r < 3 * |faces| ==> posIndices[r] == faces[r / 3].Vert(2 - r % 3)
  {
    faceSm, faceMtl, posIndices := [], [], [];
    var i := 0;
    while i < |faces|
      invariant 0 <= i <= |faces|
      invariant |faceSm| == i && |faceMtl| == i && |posIndices| == 3 * i
      invariant forall f :: 0 <= f < i ==> faceSm[f] == faces[f].smGroup
      invariant forall f :: 0 <= f < i ==> faceMtl[f] == FoldMaterialId(faces[f].matId, base, numMtls)
      invariant forall r :: 0 <= r < 3 * i ==> posIndices[r] == faces[r / 3].Vert(2 - r % 3)
    {
      faceSm := faceSm + [faces[i].smGroup];
      var id := faces[i].matId;
      if numMtls != base {
        id := base + id % (numMtls - base);
      }
      faceMtl := faceMtl + [id];
      var j := 2;
      while j >= 0
        invariant -1 <= j <= 2
        invariant |posIndices| == 3 * i + (2 - j)
        invariant forall r :: 0 <= r < 3 * i + (2 - j) ==> posIndices[r] == faces[r / 3].Vert(2 - r % 3)
      {
        posIndices := posIndices + [faces[i].Vert(j)];
        assert (3 * i + (2 - j)) / 3 == i && (3 * i + (2 - j)) % 3 == 2 - j;
        j := j - 1;
      }
      i := i + 1;
    }
  }

  predicate IsCornerOf(face: Face, p: nat) {
    face.v0 == p || face.v1 == p || face.v2 == p
  }

  ghost predicate MembersBelow(clusters: seq<seq<nat>>, n: nat) {
    forall k, l :: 0 <= k < |clusters| && 0 <= l < |clusters[k]| ==> clusters[k][l] < n
  }

  /** Two smoothing masks share a group when they have a bit in common. */
  predicate SharesGroup(a: bv32, b: bv32) {
    a & b != 0
  }

  /** Some member of the cluster shares a smoothing bit with mask sm. */
  ghost predicate Joinable(faces: seq<Face>, cluster: seq<nat>, sm: bv32) {
    exists l :: 0 <= l < |cluster| && cluster[l] < |faces| && SharesGroup(faces[cluster[l]].smGroup, sm)
  }

  ghost predicate InSomeCluster(clusters: seq<seq<nat>>, f: nat) {
    exists k :: 0 <= k < |clusters| && f in clusters[k]
  }

  /** The inner l loop: does some member of the cluster share a smoothing bit with sm? */
  method ClusterJoinable(faces: seq<Face>, cluster: seq<nat>, sm: bv32) returns (b: bool)
    requires forall l :: 0 <= l < |cluster| ==> cluster[l] < |faces|
    ensures b == Joinable(faces, cluster, sm)
  {
    b := false;
    var l := 0;
    while l < |cluster| && !b
      invariant 0 <= l <= |cluster|
      invariant b ==> Joinable(faces, cluster, sm)
      invariant !b ==> forall l' :: 0 <= l' < l ==> !SharesGroup(faces[cluster[l']].smGroup, sm)
    {
      b := SharesGroup(faces[cluster[l]].smGroup, sm);
      l := l + 1;
    }
  }

  /** What placing face i keeps: the old clusters are prefixes of the new
      ones, every new member is i, no cluster becomes empty, and i is placed. */
  ghost predicate PlacedKeeping(clusters: seq<seq<nat>>, r: seq<seq<nat>>, i: nat) {
    && |clusters| <= |r| <= |clusters| + 1
    && (forall k, l :: 0 <= k < |clusters| && 0 <= l < |clusters[k]| ==> l < |r[k]| && r[k][l] == clusters[k][l])
    && (forall k, l :: 0 <= k < |r| && 0 <= l < |r[k]| ==>
          r[k][l] == i || (k < |clusters| && l < |clusters[k]| && r[k][l] == clusters[k][l]))
    && ((forall k :: 0 <= k < |clusters| ==> |clusters[k]| > 0) ==> forall k :: 0 <= k < |r| ==> |r[k]| > 0)
    && InSomeCluster(r, i)
  }

  lemma JoinKeeps(clusters: seq<seq<nat>>, k: nat, i: nat)
    requires k < |clusters|
    ensures PlacedKeeping(clusters, clusters[k := clusters[k] + [i]], i)
  {
    var r := clusters[k := clusters[k] + [i]];
    assert r[k][|r[k]| - 1] == i;
  }

  lemma OpenKeeps(clusters: seq<seq<nat>>, i: nat)
    ensures PlacedKeeping(clusters, clusters + [[i]], i)
  {
    var r := clusters + [[i]];
    assert r[|r| - 1][0] == i;
  }

  /** The k loop from cluster k on: the first cluster at or after k holding
      a face that shares a smoothing bit with sm, or |clusters| if none does. */
  ghost function FirstJoinableFrom(clusters: seq<seq<nat>>, faces: seq<Face>, sm: bv32, k: nat): (r: nat)
    requires k <= |clusters|
    ensures k <= r <= |clusters|
    decreases |clusters| - k
  {
    if k == |clusters| then k
    else if Joinable(faces, clusters[k], sm) then k
    else FirstJoinableFrom(clusters, faces, sm, k + 1)
  }

  /** The clusters of one position once face i, with mask sm, is placed
      there: it joins the first joinable cluster, or opens a new one. */
  ghost function Place(clusters: seq<seq<nat>>, faces: seq<Face>, sm: bv32, i: nat): seq<seq<nat>> {
    var k := FirstJoinableFrom(clusters, faces, sm, 0);
    if k < |clusters| then clusters[k := clusters[k] + [i]] else clusters + [[i]]
  }

  /** Face i placed at position p for its corner j, when that corner is p. */
  ghost function PlaceIfCorner(clusters: seq<seq<nat>>, faces: seq<Face>, i: nat, j: nat, p: nat): seq<seq<nat>>
    requires i < |faces| && j < 3
  {
    if faces[i].Vert(j) == p then Place(clusters, faces, faces[i].smGroup, i) else clusters
  }

  /** The clusters of position p once face i has visited its corners
      v[2], ..., v[j+1]. */
  ghost function PlacedAbove(clusters: seq<seq<nat>>, faces: seq<Face>, i: nat, p: nat, j: int): seq<seq<nat>>
    requires i < |faces| && -1 <= j <= 2
    decreases 2 - j
  {
    if j == 2 then clusters
    else PlaceIfCorner(PlacedAbove(clusters, faces, i, p, j + 1), faces, i, j + 1, p)
  }

  /** The clusters of position p after faces 0..n-1, in the loop order of
      vertex_sm_group: faces in order, each at its corners v[2], v[1], v[0]. */
  ghost function ClustersAt(faces: seq<Face>, p: nat, n: nat): seq<seq<nat>>
    requires n <= |faces|
  {
    if n == 0 then [] else PlacedAbove(ClustersAt(faces, p, n - 1), faces, n - 1, p, -1)
  }

  /** The clusters of one position after face i, with smoothing mask sm, is
      placed there: it joins the first cluster holding a face whose mask
      intersects sm, or else starts a new cluster of its own. */
  method PlaceFace(clusters: seq<seq<nat>>, faces: seq<Face>, sm: bv32, i: nat)
    returns (r: seq<seq<nat>>)
    requires i < |faces|
    requires MembersBelow(clusters, |faces|)
    ensures (forall k :: 0 <= k < |clusters| ==> !Joinable(faces, clusters[k], sm)) ==> r == clusters + [[i]]
    ensures forall k :: 0 <= k < |clusters| && Joinable(faces, clusters[k], sm)
              && (forall k' :: 0 <= k' < k ==> !Joinable(faces, clusters[k'], sm))
              ==> r == clusters[k := clusters[k] + [i]]
    ensures PlacedKeeping(clusters, r, i)
    ensures r == Place(clusters, faces, sm, i)
  {
    var k := 0;
    while k < |clusters|
      invariant 0 <= k <= |clusters|
      invariant forall k' :: 0 <= k' < k ==> !Joinable(faces, clusters[k'], sm)
      invariant FirstJoinableFrom(clusters, faces, sm, k) == FirstJoinableFrom(clusters, faces, sm, 0)
    {
      var found := ClusterJoinable(faces, clusters[k], sm);
      if found {
        r := clusters[k := clusters[k] + [i]];
        JoinKeeps(clusters, k, i);
        return;
      }
      k := k + 1;
    }
    r := clusters + [[i]];
    OpenKeeps(clusters, i);
  }

  /** Every member of a cluster of position p is a face with a corner at p. */
  ghost predicate ClustersSound(groups: seq<seq<seq<nat>>>, faces: seq<Face>) {
    forall p, k, l :: 0 <= p < |groups| && 0 <= k < |groups[p]| && 0 <= l < |groups[p][k]| ==>
      groups[p][k][l] < |faces| && IsCornerOf(faces[groups[p][k][l]], p)
  }

  ghost predicate ClustersNonEmpty(groups: seq<seq<seq<nat>>>) {
    forall p, k :: 0 <= p < |groups| && 0 <= k < |groups[p]| ==> |groups[p][k]| > 0
  }

  lemma SoundMembersBelow(groups: seq<seq<seq<nat>>>, faces: seq<Face>, p: nat)
    requires ClustersSound(groups, faces) && p < |groups|
    ensures MembersBelow(groups[p], |faces|)
  {
  }

  /** Placing face i, which has a corner at index, among that position's
      clusters keeps every cluster sound and non-empty, and loses no face. */
  lemma PlaceKeepsClusters(groups: seq<seq<seq<nat>>>, faces: seq<Face>, index: nat, placed: seq<seq<nat>>, i: nat)
    requires index < |groups| && i < |faces| && IsCornerOf(faces[i], index)
    requires ClustersNonEmpty(groups) && ClustersSound(groups, faces)
    requires PlacedKeeping(groups[index], placed, i)
    ensures ClustersNonEmpty(groups[index := placed]) && ClustersSound(groups[index := placed], faces)
    ensures forall f :: InSomeCluster(groups[index], f) ==> InSomeCluster(placed, f)
  {
    forall f | InSomeCluster(groups[index], f) ensures InSomeCluster(placed, f) {
      var k :| 0 <= k < |groups[index]| && f in groups[index][k];
      var l :| 0 <= l < |groups[index][k]| && groups[index][k][l] == f;
      assert placed[k][l] == f;
    }
  }

  /** Place keeps every face already placed and places face i. */
  lemma PlaceKeeps(clusters: seq<seq<nat>>, faces: seq<Face>, sm: bv32, i: nat)
    ensures PlacedKeeping(clusters, Place(clusters, faces, sm, i), i)
  {
    var k := FirstJoinableFrom(clusters, faces, sm, 0);
    if k < |clusters| { JoinKeeps(clusters, k, i); } else { OpenKeeps(clusters, i); }
  }

  /** Placing face i at position p from its corner j on keeps every face
      already there, and places face i for each of its corners above j that
      is p. */
  lemma {:induction false} PlacedAboveKeeps(clusters: seq<seq<nat>>, faces: seq<Face>, i: nat, p: nat, j: int)
    requires i < |faces| && -1 <= j <= 2
    ensures forall f :: InSomeCluster(clusters, f) ==> InSomeCluster(PlacedAbove(clusters, faces, i, p, j), f)
    ensures forall j' :: j < j' < 3 && faces[i].Vert(j') == p ==> InSomeCluster(PlacedAbove(clusters, faces, i, p, j), i)
    decreases 2 - j
  {
    if j < 2 {
      var above := PlacedAbove(clusters, faces, i, p, j + 1);
      PlacedAboveKeeps(clusters, faces, i, p, j + 1);
      if faces[i].Vert(j + 1) == p {
        PlaceKeeps(above, faces, faces[i].smGroup, i);
        forall f | InSomeCluster(above, f) ensures InSomeCluster(PlacedAbove(clusters, faces, i, p, j), f) {
          var k :| 0 <= k < |above| && f in above[k];
          var l :| 0 <= l < |above[k]| && above[k][l] == f;
          assert PlacedAbove(clusters, faces, i, p, j)[k][l] == f;
        }
      }
    }
  }

  /** Every face before n is in some cluster at each of its corners' positions. */
  lemma {:induction false} ClustersAtCover(faces: seq<Face>, p: nat, n: nat, f: nat, j: nat)
    requires n <= |faces| && f < n && j < 3 && faces[f].Vert(j) == p
    ensures InSomeCluster(ClustersAt(faces, p, n), f)
  {
    var prev := ClustersAt(faces, p, n - 1);
    PlacedAboveKeeps(prev, faces, n - 1, p, -1);
    if f < n - 1 {
      ClustersAtCover(faces, p, n - 1, f, j);
    }
  }

  /** Clusters built by the fold hold every face at each of its corners. */
  lemma GroupsCover(groups: seq<seq<seq<nat>>>, faces: seq<Face>)
    requires forall i :: 0 <= i < |faces| ==> faces[i].v0 < |groups| && faces[i].v1 < |groups| && faces[i].v2 < |groups|
    requires forall p :: 0 <= p < |groups| ==> groups[p] == ClustersAt(faces, p, |faces|)
    ensures forall f, j :: 0 <= f < |faces| && 0 <= j < 3 ==> InSomeCluster(groups[faces[f].Vert(j)], f)
  {
    forall f, j | 0 <= f < |faces| && 0 <= j < 3 ensures InSomeCluster(groups[faces[f].Vert(j)], f) {
      ClustersAtCover(faces, faces[f].Vert(j), |faces|, f, j);
    }
  }

  /** Placing face i at every position takes the clusters after faces
      0..i-1 to the clusters after faces 0..i. */
  lemma ClustersAtStep(g: seq<seq<seq<nat>>>, r: seq<seq<seq<nat>>>, faces: seq<Face>, i: nat)
    requires i < |faces| && |r| == |g|
    requires forall p :: 0 <= p < |g| ==> g[p] == ClustersAt(faces, p, i)
    requires forall p :: 0 <= p < |g| ==> r[p] == PlacedAbove(g[p], faces, i, p, -1)
    ensures forall p :: 0 <= p < |g| ==> r[p] == ClustersAt(faces, p, i + 1)
  {
  }

  /** The j loop for face i: the face is placed at its corners v[2], v[1],
      v[0] in turn. */
  method PlaceCorners(groups: seq<seq<seq<nat>>>, faces: seq<Face>, i: nat) returns (r: seq<seq<seq<nat>>>)
    requires i < |faces| && faces[i].v0 < |groups| && faces[i].v1 < |groups| && faces[i].v2 < |groups|
    requires ClustersNonEmpty(groups) && ClustersSound(groups, faces)
    ensures |r| == |groups|
    ensures forall p :: 0 <= p < |groups| ==> r[p] == PlacedAbove(groups[p], faces, i, p, -1)
    ensures ClustersNonEmpty(r) && ClustersSound(r, faces)
  {
    r := groups;
    var j := 2;
    while j >= 0
      invariant -1 <= j <= 2 && |r| == |groups|
      invariant forall p :: 0 <= p < |groups| ==> r[p] == PlacedAbove(groups[p], faces, i, p, j)
      invariant ClustersNonEmpty(r) && ClustersSound(r, faces)
    {
      var index := faces[i].Vert(j);
      SoundMembersBelow(r, faces, index);
      var placed := PlaceFace(r[index], faces, faces[i].smGroup, i);
      PlaceKeepsClusters(r, faces, index, placed, i);
      r := r[index := placed];
      j := j - 1;
    }
  }

  /** vertex_sm_group: for every position, its smoothing clusters, each a list
      of face indices. Faces are visited in order, corners v[2], v[1], v[0]. */
  method BuildSmoothingClusters(faces: seq<Face>, numVerts: nat) returns (groups: seq<seq<seq<nat>>>)
    requires forall i :: 0 <= i < |faces| ==> faces[i].v0 < numVerts && faces[i].v1 < numVerts && faces[i].v2 < numVerts
    ensures |groups| == numVerts
    ensures forall p :: 0 <= p < numVerts ==> groups[p] == ClustersAt(faces, p, |faces|)
    ensures ClustersNonEmpty(groups)
    ensures ClustersSound(groups, faces)
    ensures forall f, j :: 0 <= f < |faces| && 0 <= j < 3 ==> InSomeCluster(groups[faces[f].Vert(j)], f)
  {
    groups := seq(numVerts, _ => []);
    var i := 0;
    while i < |faces|
      invariant 0 <= i <= |faces|
      invariant |groups| == numVerts
      invariant forall p :: 0 <= p < numVerts ==> groups[p] == ClustersAt(faces, p, i)
      invariant ClustersNonEmpty(groups)
      invariant ClustersSound(groups, faces)
    {
      ghost var before := groups;
      groups := PlaceCorners(groups, faces, i);
      ClustersAtStep(before, groups, faces, i);
      i := i + 1;
    }
    GroupsCover(groups, faces);
  }
}
