/**
  Corner welding (extract_object, mesh_extractor.cpp): every triangle corner
  gets a key (position index, UV indices in channel order, smoothing
  cluster); corners with equal keys become one output vertex, the set of
  keys is walked in ascending order to number the vertices, and the number
  is written back into every corner that referenced the key.
 */
module Welding {
  import opened MeshTypes
  import opened VertexOrder
  import opened VertexSet
  import opened Smoothing

  /** The corner slot i * 3 + j reads its indices from this offset; a mirrored
      node reads the corners of each face in reverse. */
  function CornerOffset(r: nat, flip: bool): (off: nat)
    ensures off / 3 == r / 3
    ensures !flip ==> off == r
    ensures flip ==> off % 3 == 2 - r % 3
  {
    if !flip then r else (r / 3) * 3 + (2 - r % 3)
  }

  /** The placement of the UV channels the exporter found, when there is none:
      the position indices stand in as the single channel's UV indices. */
  function ChannelsOrFallback(texIndices: seq<seq<nat>>, posIndices: seq<nat>): (r: seq<seq<nat>>)
    ensures |r| > 0
    ensures texIndices != [] ==> r == texIndices
    ensures texIndices == [] ==> r == [posIndices]
  {
    if texIndices == [] then [posIndices] else texIndices
  }

  /** The inputs of the weld: 3 position indices per face, every UV channel
      with one index per corner, and every face found in a cluster of each of
      its corner positions. */
  ghost predicate WeldInputs(posIndices: seq<nat>, texIndices: seq<seq<nat>>, clusters: seq<seq<seq<nat>>>, numFaces: nat) {
    && |posIndices| == 3 * numFaces
    && (forall c :: 0 <= c < |texIndices| ==> |texIndices[c]| == 3 * numFaces)
    && (forall r :: 0 <= r < 3 * numFaces ==> posIndices[r] < |clusters|)
    && (forall r :: 0 <= r < 3 * numFaces ==> InSomeCluster(clusters[posIndices[r]], r / 3))
  }

  /** The index of the last cluster of a position that holds face f. */
  function LastClusterOf(clusters: seq<seq<nat>>, f: nat): (k: nat)
    requires InSomeCluster(clusters, f)
    ensures k < |clusters| && f in clusters[k]
    ensures forall k' :: k < k' < |clusters| ==> f !in clusters[k']
  {
    if f in clusters[|clusters| - 1] then |clusters| - 1
    else
      assert InSomeCluster(clusters[..|clusters| - 1], f) by {
        var k :| 0 <= k < |clusters| && f in clusters[k];
        assert clusters[..|clusters| - 1][k] == clusters[k];
      }
      LastClusterOf(clusters[..|clusters| - 1], f)
  }

  /** The key of corner slot r. */
  ghost function CornerKey(posIndices: seq<nat>, texIndices: seq<seq<nat>>, clusters: seq<seq<seq<nat>>>,
                           numFaces: nat, flip: bool, r: nat): VertexKey
    requires WeldInputs(posIndices, texIndices, clusters, numFaces) && r < 3 * numFaces
  {
    var off := CornerOffset(r, flip);
    VertexKey(posIndices[off], UvAt(texIndices, off), LastClusterOf(clusters[posIndices[off]], r / 3))
  }

  /** The UV index of every channel at one corner offset, in channel order. */
  function UvAt(texIndices: seq<seq<nat>>, off: nat): (uv: seq<int>)
    requires forall c :: 0 <= c < |texIndices| ==> off < |texIndices[c]|
    ensures |uv| == |texIndices|
    ensures forall c :: 0 <= c < |texIndices| ==> uv[c] == texIndices[c][off] as int
  {
    if texIndices == [] then [] else UvAt(texIndices[..|texIndices| - 1], off) + [texIndices[|texIndices| - 1][off]]
  }

  /** Builds the key of corner slot i * 3 + j: the channel loop and the
      cluster search of the weld. */
  method MakeCornerKey(posIndices: seq<nat>, texIndices: seq<seq<nat>>, clusters: seq<seq<seq<nat>>>,
                       numFaces: nat, flip: bool, i: nat, j: nat, slot: nat) returns (key: VertexKey)
    requires WeldInputs(posIndices, texIndices, clusters, numFaces)
    requires i < numFaces && j < 3 && slot == i * 3 + j
    ensures slot < 3 * numFaces && key == CornerKey(posIndices, texIndices, clusters, numFaces, flip, slot)
  {
    var offset: nat;
    if !flip {
      offset := i * 3 + j;
    } else {
      offset := i * 3 + (2 - j);
    }
    assert offset == CornerOffset(i * 3 + j, flip);
    var pos := posIndices[offset];
    var tex: seq<int> := [];
    var c := 0;
    while c < |texIndices|
      invariant 0 <= c <= |texIndices|
      invariant |tex| == c
      invariant forall c' :: 0 <= c' < c ==> tex[c'] == texIndices[c'][offset] as int
    {
      tex := tex + [texIndices[c][offset]];
      c := c + 1;
    }
    var cl := clusters[pos];
    assert (i * 3 + j) / 3 == i;
    var sm: nat := 0;
    var seen := false;
    var k := 0;
    while k < |cl|
      invariant 0 <= k <= |cl|
      invariant seen <==> exists k' :: 0 <= k' < k && i in cl[k']
      invariant seen ==> sm < k && i in cl[sm] && forall k' :: sm < k' < k ==> i !in cl[k']
    {
      var l := 0;
      while l < |cl[k]|
        invariant 0 <= l <= |cl[k]|
        invariant i !in cl[k][..l]
      {
        if cl[k][l] == i {
          sm := k;
          seen := true;
          break;
        }
        l := l + 1;
      }
      assert cl[k][..|cl[k]|] == cl[k];
      k := k + 1;
    }
    var last := LastClusterOf(cl, i);
    assert i in cl[last];
    key := VertexKey(pos, tex, sm);
  }

  /** Every corner slot recorded in an entry carries the entry's key, and
      every entry records at least one slot. */
  ghost predicate KeysConsistent(entries: seq<VertexIndex>, posIndices: seq<nat>, texIndices: seq<seq<nat>>,
                                 clusters: seq<seq<seq<nat>>>, numFaces: nat, flip: bool)
    requires WeldInputs(posIndices, texIndices, clusters, numFaces)
  {
    forall x :: x in entries ==>
      && |x.refs| > 0
      && forall t :: 0 <= t < |x.refs| ==>
           x.refs[t] < 3 * numFaces && CornerKey(posIndices, texIndices, clusters, numFaces, flip, x.refs[t]) == x.key
  }

  /** Every corner slot below n is referenced exactly once over all
      entries, and no other slot is referenced. */
  ghost predicate RefsOnceBelow(entries: seq<VertexIndex>, n: nat) {
    forall s: nat :: multiset(AllRefs(entries))[s] == if s < n then 1 else 0
  }

  lemma AllRefsSingle(e: VertexIndex)
    ensures AllRefs([e]) == e.refs
  {
    assert [e][..0] == [];
  }

  lemma AllRefsAppendAt(s: seq<VertexIndex>, p: nat, slot: nat)
    requires p < |s|
    ensures multiset(AllRefs(s[p := VertexIndex(s[p].key, s[p].refs + [slot])])) == multiset(AllRefs(s)) + multiset{slot}
  {
    var e := VertexIndex(s[p].key, s[p].refs + [slot]);
    var a, b := s[..p], s[p + 1..];
    assert s == a + [s[p]] + b;
    assert s[p := e] == a + [e] + b;
    AllRefsConcat(a + [s[p]], b);
    AllRefsConcat(a, [s[p]]);
    AllRefsConcat(a + [e], b);
    AllRefsConcat(a, [e]);
    AllRefsSingle(s[p]);
    AllRefsSingle(e);
    calc {
      multiset(AllRefs(s[p := e]));
      multiset(AllRefs(a) + (s[p].refs + [slot]) + AllRefs(b));
      multiset(AllRefs(a)) + multiset(s[p].refs) + multiset{slot} + multiset(AllRefs(b));
      multiset(AllRefs(a) + s[p].refs + AllRefs(b)) + multiset{slot};
      multiset(AllRefs(s)) + multiset{slot};
    }
  }

  lemma AllRefsInsert(s: seq<VertexIndex>, p: nat, e: VertexIndex)
    requires p <= |s|
    ensures multiset(AllRefs(s[..p] + [e] + s[p..])) == multiset(AllRefs(s)) + multiset(e.refs)
  {
    var a, b := s[..p], s[p..];
    assert s == a + b;
    AllRefsConcat(a, b);
    AllRefsConcat(a + [e], b);
    AllRefsConcat(a, [e]);
    AllRefsSingle(e);
    calc {
      multiset(AllRefs(a + [e] + b));
      multiset(AllRefs(a) + e.refs + AllRefs(b));
      multiset(AllRefs(a)) + multiset(e.refs) + multiset(AllRefs(b));
    }
  }

  /** Every entry of after is an entry of before, a new entry for key holding
      only slot, or an entry of before for key with slot appended. */
  ghost predicate AddedFrom(before: seq<VertexIndex>, after: seq<VertexIndex>, key: VertexKey, slot: nat) {
    forall x :: x in after ==>
      (|| x in before
       || (x.key == key && x.refs == [slot])
       || (x.key == key && exists y :: y in before && y.key == key && x.refs == y.refs + [slot]))
  }

  /** One step of the weld loop: find the key in the ordered set; an existing
      entry is erased and reinserted with the slot appended to its references,
      otherwise a new entry holding only the slot is inserted. */
  method AddReference(entries: seq<VertexIndex>, key: VertexKey, slot: nat) returns (r: seq<VertexIndex>)
    requires StrictlySorted(entries)
    ensures StrictlySorted(r)
    ensures (exists p :: 0 <= p < |entries| && entries[p].key == key) ==>
              exists p :: 0 <= p < |entries| && entries[p].key == key
                          && r == entries[p := VertexIndex(key, entries[p].refs + [slot])]
    ensures (forall p :: 0 <= p < |entries| ==> entries[p].key != key) ==>
              exists q :: 0 <= q <= |entries| && r == entries[..q] + [VertexIndex(key, [slot])] + entries[q..]
    ensures multiset(AllRefs(r)) == multiset(AllRefs(entries)) + multiset{slot}
    ensures RefsOnceBelow(entries, slot) ==> RefsOnceBelow(r, slot + 1)
    ensures AddedFrom(entries, r, key, slot)
  {
    var found := Find(entries, key);
    var refs: seq<nat> := [];
    if found.Some? {
      var p := found.value;
      refs := entries[p].refs;
      r := Erase(entries, p);
      refs := refs + [slot];
      EraseInsertIsUpdate(entries, p, VertexIndex(key, refs));
      r := Insert(r, VertexIndex(key, refs));
      assert r == entries[p := VertexIndex(key, refs)];
      AllRefsAppendAt(entries, p, slot);
      UpdatedMembers(entries, p, key, slot);
    } else {
      refs := [slot];
      r := Insert(entries, VertexIndex(key, refs));
      ghost var q :| 0 <= q <= |entries| && r == entries[..q] + [VertexIndex(key, refs)] + entries[q..];
      AllRefsInsert(entries, q, VertexIndex(key, refs));
      forall x | x in r ensures x in entries || x == VertexIndex(key, refs) {
        assert x in entries[..q] || x == VertexIndex(key, refs) || x in entries[q..];
      }
    }
    if RefsOnceBelow(entries, slot) {
      RefsOnceStep(entries, r, slot);
    }
  }

  lemma UpdatedMembers(entries: seq<VertexIndex>, p: nat, key: VertexKey, slot: nat)
    requires p < |entries| && entries[p].key == key
    ensures forall x :: x in entries[p := VertexIndex(key, entries[p].refs + [slot])] ==>
              x in entries || (x.key == key && exists y :: y in entries && y.key == key && x.refs == y.refs + [slot])
  {
    var r := entries[p := VertexIndex(key, entries[p].refs + [slot])];
    forall x | x in r
      ensures x in entries || (x.key == key && exists y :: y in entries && y.key == key && x.refs == y.refs + [slot])
    {
      var v :| 0 <= v < |r| && r[v] == x;
      if v != p {
        assert entries[v] == x;
      } else {
        assert entries[p] in entries;
      }
    }
  }

  /** The body of the weld loop for corner slot i * 3 + j. */
  method WeldSlot(entries: seq<VertexIndex>, posIndices: seq<nat>, texIndices: seq<seq<nat>>,
                  clusters: seq<seq<seq<nat>>>, numFaces: nat, flip: bool, i: nat, j: nat)
    returns (r: seq<VertexIndex>)
    requires WeldInputs(posIndices, texIndices, clusters, numFaces)
    requires i < numFaces && j < 3
    requires StrictlySorted(entries)
    requires KeysConsistent(entries, posIndices, texIndices, clusters, numFaces, flip)
    requires RefsOnceBelow(entries, i * 3 + j)
    ensures StrictlySorted(r)
    ensures KeysConsistent(r, posIndices, texIndices, clusters, numFaces, flip)
    ensures RefsOnceBelow(r, i * 3 + j + 1)
  {
    var slot := i * 3 + j;
    var key := MakeCornerKey(posIndices, texIndices, clusters, numFaces, flip, i, j, slot);
    r := AddReference(entries, key, slot);
    ConsistentAfterAdd(entries, r, posIndices, texIndices, clusters, numFaces, flip, key, slot);
    assert RefsOnceBelow(r, slot + 1);
  }

  /** Adding the next slot to the references keeps each slot referenced once. */
  lemma RefsOnceStep(before: seq<VertexIndex>, after: seq<VertexIndex>, slot: nat)
    requires RefsOnceBelow(before, slot)
    requires multiset(AllRefs(after)) == multiset(AllRefs(before)) + multiset{slot}
    ensures RefsOnceBelow(after, slot + 1)
  {
    CountsStep(multiset(AllRefs(after)), multiset(AllRefs(before)), slot);
  }

  lemma CountsStep(a: multiset<nat>, b: multiset<nat>, slot: nat)
    requires forall s: nat :: b[s] == if s < slot then 1 else 0
    requires a == b + multiset{slot}
    ensures forall s: nat :: a[s] == if s < slot + 1 then 1 else 0
  {
    forall s: nat ensures a[s] == if s < slot + 1 then 1 else 0 {
      assert a[s] == b[s] + multiset{slot}[s];
    }
  }

  /** The inner weld loop: the three corner slots of face i. */
  method WeldFace(entries: seq<VertexIndex>, posIndices: seq<nat>, texIndices: seq<seq<nat>>,
                  clusters: seq<seq<seq<nat>>>, numFaces: nat, flip: bool, i: nat)
    returns (r: seq<VertexIndex>)
    requires WeldInputs(posIndices, texIndices, clusters, numFaces)
    requires i < numFaces
    requires StrictlySorted(entries)
    requires KeysConsistent(entries, posIndices, texIndices, clusters, numFaces, flip)
    requires RefsOnceBelow(entries, i * 3)
    ensures StrictlySorted(r)
    ensures KeysConsistent(r, posIndices, texIndices, clusters, numFaces, flip)
    ensures RefsOnceBelow(r, i * 3 + 3)
  {
    r := entries;
    var j := 0;
    while j < 3
      invariant 0 <= j <= 3
      invariant StrictlySorted(r)
      invariant KeysConsistent(r, posIndices, texIndices, clusters, numFaces, flip)
      invariant RefsOnceBelow(r, i * 3 + j)
    {
      r := WeldSlot(r, posIndices, texIndices, clusters, numFaces, flip, i, j);
      j := j + 1;
    }
  }

  /** The weld loop over every corner slot i * 3 + j. */
  method WeldCorners(posIndices: seq<nat>, texIndices: seq<seq<nat>>, clusters: seq<seq<seq<nat>>>,
                     numFaces: nat, flip: bool) returns (entries: seq<VertexIndex>)
    requires WeldInputs(posIndices, texIndices, clusters, numFaces)
    ensures StrictlySorted(entries)
    ensures KeysConsistent(entries, posIndices, texIndices, clusters, numFaces, flip)
    ensures RefsOnceBelow(entries, 3 * numFaces)
  {
    entries := [];
    assert AllRefs(entries) == [];
    ghost var done := 0;
    var i := 0;
    while i < numFaces
      invariant 0 <= i <= numFaces && done == i * 3
      invariant StrictlySorted(entries)
      invariant KeysConsistent(entries, posIndices, texIndices, clusters, numFaces, flip)
      invariant RefsOnceBelow(entries, done)
    {
      entries := WeldFace(entries, posIndices, texIndices, clusters, numFaces, flip, i);
      done := done + 3;
      i := i + 1;
    }
  }

  /** Adding a slot whose key is key keeps every entry consistent. */
  lemma ConsistentAfterAdd(before: seq<VertexIndex>, after: seq<VertexIndex>, posIndices: seq<nat>,
                           texIndices: seq<seq<nat>>, clusters: seq<seq<seq<nat>>>, numFaces: nat, flip: bool,
                           key: VertexKey, slot: nat)
    requires WeldInputs(posIndices, texIndices, clusters, numFaces)
    requires KeysConsistent(before, posIndices, texIndices, clusters, numFaces, flip)
    requires slot < 3 * numFaces && CornerKey(posIndices, texIndices, clusters, numFaces, flip, slot) == key
    requires AddedFrom(before, after, key, slot)
    ensures KeysConsistent(after, posIndices, texIndices, clusters, numFaces, flip)
  {
    forall x | x in after
      ensures && |x.refs| > 0
              && forall t :: 0 <= t < |x.refs| ==>
                   x.refs[t] < 3 * numFaces
                   && CornerKey(posIndices, texIndices, clusters, numFaces, flip, x.refs[t]) == x.key
    {
      if x !in before && x.refs != [slot] {
        var y :| y in before && y.key == key && x.refs == y.refs + [slot];
        forall t | 0 <= t < |x.refs|
          ensures x.refs[t] < 3 * numFaces
                  && CornerKey(posIndices, texIndices, clusters, numFaces, flip, x.refs[t]) == x.key
        {
          if t < |y.refs| {
            assert x.refs[t] == y.refs[t];
          }
        }
      }
    }
  }

  /** Slot r is referenced by some entry. */
  ghost predicate Covered(entries: seq<VertexIndex>, r: nat) {
    exists v, t :: 0 <= v < |entries| && 0 <= t < |entries[v].refs| && entries[v].refs[t] == r
  }

  /** The entries split the slots below n: every reference is below n, no slot
      is referenced by two entries, and every slot is referenced. */
  ghost predicate Partitioned(entries: seq<VertexIndex>, n: nat) {
    && (forall v, t :: 0 <= v < |entries| && 0 <= t < |entries[v].refs| ==> entries[v].refs[t] < n)
    && (forall a, ta, b ::
          (0 <= a < |entries| && 0 <= ta < |entries[a].refs| && 0 <= b < |entries| && entries[a].refs[ta] in entries[b].refs)
          ==> a == b)
    && (forall r :: 0 <= r < n ==> Covered(entries, r))
  }

  lemma {:induction false} AllRefsMember(s: seq<VertexIndex>, r: nat)
    requires r in AllRefs(s)
    ensures Covered(s, r)
    decreases |s|
  {
    var n := |s|;
    if r in s[n - 1].refs {
      var t :| 0 <= t < |s[n - 1].refs| && s[n - 1].refs[t] == r;
    } else {
      AllRefsMember(s[..n - 1], r);
      var v, t :| 0 <= v < n - 1 && 0 <= t < |s[..n - 1][v].refs| && s[..n - 1][v].refs[t] == r;
      assert s[v] == s[..n - 1][v];
    }
  }

  /** The weld's postconditions make the entries a partition of the corner
      slots in which each slot occurs exactly once. */
  lemma WeldPartitionsSlots(entries: seq<VertexIndex>, posIndices: seq<nat>, texIndices: seq<seq<nat>>,
                            clusters: seq<seq<seq<nat>>>, numFaces: nat, flip: bool)
    requires WeldInputs(posIndices, texIndices, clusters, numFaces)
    requires StrictlySorted(entries)
    requires KeysConsistent(entries, posIndices, texIndices, clusters, numFaces, flip)
    requires RefsOnceBelow(entries, 3 * numFaces)
    ensures Partitioned(entries, 3 * numFaces)
  {
    var n := 3 * numFaces;
    forall v, t | 0 <= v < |entries| && 0 <= t < |entries[v].refs| ensures entries[v].refs[t] < n {
      assert entries[v] in entries;
    }
    forall a, ta, b | 0 <= a < |entries| && 0 <= ta < |entries[a].refs| && 0 <= b < |entries|
                      && entries[a].refs[ta] in entries[b].refs
      ensures a == b
    {
      var tb :| 0 <= tb < |entries[b].refs| && entries[b].refs[tb] == entries[a].refs[ta];
      assert entries[a] in entries && entries[b] in entries;
      assert entries[a].key == entries[b].key;
      KeyLessIrreflexive(entries[a].key);
    }
    forall r | 0 <= r < n ensures Covered(entries, r) {
      assert multiset(AllRefs(entries))[r] == 1;
      AllRefsMember(entries, r);
    }
  }

  /** The vertex index held by corner slot r = i * 3 + j of a triangle list. */
  function CornerAt(tris: seq<Triangle>, r: nat): nat
    requires r < 3 * |tris|
  {
    tris[r / 3].Corner(r % 3)
  }

  lemma CornerAtUpdate(tris: seq<Triangle>, r0: nat, v: nat)
    requires r0 < 3 * |tris|
    ensures forall r :: 0 <= r < 3 * |tris| ==>
              CornerAt(tris[r0 / 3 := tris[r0 / 3].WithCorner(r0 % 3, v)], r) == if r == r0 then v else CornerAt(tris, r)
  {
    forall r | 0 <= r < 3 * |tris|
      ensures CornerAt(tris[r0 / 3 := tris[r0 / 3].WithCorner(r0 % 3, v)], r) == if r == r0 then v else CornerAt(tris, r)
    {
      if r != r0 && r / 3 == r0 / 3 {
        assert r % 3 != r0 % 3;
      }
    }
  }

  /** ref_triangle write-back for one vertex: v goes into every corner listed
      in refs; all other corners keep their value. */
  method WriteBack(tris: seq<Triangle>, refs: seq<nat>, v: nat) returns (r: seq<Triangle>)
    requires forall t :: 0 <= t < |refs| ==> refs[t] < 3 * |tris|
    ensures |r| == |tris|
    ensures forall s :: 0 <= s < 3 * |tris| ==> CornerAt(r, s) == if s in refs then v else CornerAt(tris, s)
  {
    r := tris;
    var t := 0;
    while t < |refs|
      invariant 0 <= t <= |refs|
      invariant |r| == |tris|
      invariant forall s :: 0 <= s < 3 * |tris| ==> CornerAt(r, s) == if s in refs[..t] then v else CornerAt(tris, s)
    {
      var slot := refs[t];
      CornerAtUpdate(r, slot, v);
      r := r[slot / 3 := r[slot / 3].WithCorner(slot % 3, v)];
      assert refs[..t + 1] == refs[..t] + [slot];
      t := t + 1;
    }
    assert refs[..t] == refs;
  }

  /** The vertex numbering loop: the v-th entry in key order becomes output
      vertex v, carrying the bind list of its position, and v is written into
      every corner the entry references. */
  method BuildVertices(entries: seq<VertexIndex>, positionBinds: seq<seq<Bind>>, numFaces: nat)
    returns (vertices: seq<Vertex>, triangles: seq<Triangle>)
    requires Partitioned(entries, 3 * numFaces)
    requires forall v :: 0 <= v < |entries| ==> 0 <= entries[v].key.pos < |positionBinds|
    ensures |vertices| == |entries|
    ensures forall v :: 0 <= v < |entries| ==>
              vertices[v] == Vertex(entries[v].key, positionBinds[entries[v].key.pos])
    ensures |triangles| == numFaces
    ensures forall v, t :: 0 <= v < |entries| && 0 <= t < |entries[v].refs| ==>
              CornerAt(triangles, entries[v].refs[t]) == v
    ensures forall r :: 0 <= r < 3 * numFaces ==> CornerAt(triangles, r) < |entries|
  {
    triangles := seq(numFaces, _ => Triangle(0, 0, 0));
    vertices := [];
    var v := 0;
    while v < |entries|
      invariant 0 <= v <= |entries|
      invariant |vertices| == v && |triangles| == numFaces
      invariant forall v' :: 0 <= v' < v ==> vertices[v'] == Vertex(entries[v'].key, positionBinds[entries[v'].key.pos])
      invariant forall v', t :: 0 <= v' < v && 0 <= t < |entries[v'].refs| ==>
                  CornerAt(triangles, entries[v'].refs[t]) == v'
    {
      var e := entries[v];
      vertices := vertices + [Vertex(e.key, positionBinds[e.key.pos])];
      ghost var before := triangles;
      triangles := WriteBack(triangles, e.refs, v);
      forall v', t | 0 <= v' < v + 1 && 0 <= t < |entries[v'].refs|
        ensures CornerAt(triangles, entries[v'].refs[t]) == v'
      {
        var s := entries[v'].refs[t];
        if v' < v {
          assert s !in e.refs;
        } else {
          assert s in e.refs;
        }
      }
      v := v + 1;
    }
    forall r | 0 <= r < 3 * numFaces ensures CornerAt(triangles, r) < |entries| {
      assert Covered(entries, r);
      var w, t :| 0 <= w < |entries| && 0 <= t < |entries[w].refs| && entries[w].refs[t] == r;
    }
  }

  /** Some corner of the triangle list points at vertex v. */
  ghost predicate Used(tris: seq<Triangle>, v: nat) {
    exists r :: 0 <= r < 3 * |tris| && CornerAt(tris, r) == v
  }

  /** Corner welding of one mesh: every corner slot points at an output vertex
      that was built from exactly that corner's key; two corners share a
      vertex exactly when their keys are equal; the vertices come in
      ascending key order, each used by some corner, each carrying the binds
      of its position. */
  ghost predicate Welded(posIndices: seq<nat>, texIndices: seq<seq<nat>>, clusters: seq<seq<seq<nat>>>,
                         positionBinds: seq<seq<Bind>>, numFaces: nat, flip: bool,
                         vertices: seq<Vertex>, triangles: seq<Triangle>)
  {
    && WeldInputs(posIndices, texIndices, clusters, numFaces)
    && |triangles| == numFaces
    && (forall t :: 0 <= t < numFaces ==> triangles[t].InRange(|vertices|))
    && (forall r :: 0 <= r < 3 * numFaces ==>
          CornerAt(triangles, r) < |vertices|
          && vertices[CornerAt(triangles, r)].source == CornerKey(posIndices, texIndices, clusters, numFaces, flip, r))
    && (forall r1, r2 :: 0 <= r1 < 3 * numFaces && 0 <= r2 < 3 * numFaces ==>
          (CornerAt(triangles, r1) == CornerAt(triangles, r2) <==>
           CornerKey(posIndices, texIndices, clusters, numFaces, flip, r1)
           == CornerKey(posIndices, texIndices, clusters, numFaces, flip, r2)))
    && (forall a, b :: 0 <= a < b < |vertices| ==> KeyLess(vertices[a].source, vertices[b].source))
    && (forall v :: 0 <= v < |vertices| ==> Used(triangles, v))
    && (forall v :: 0 <= v < |vertices| ==>
          0 <= vertices[v].source.pos < |positionBinds| && vertices[v].binds == positionBinds[vertices[v].source.pos])
  }

  method WeldMesh(posIndices: seq<nat>, texIndices: seq<seq<nat>>, clusters: seq<seq<seq<nat>>>,
                  positionBinds: seq<seq<Bind>>, numFaces: nat, flip: bool)
    returns (vertices: seq<Vertex>, triangles: seq<Triangle>)
    requires WeldInputs(posIndices, texIndices, clusters, numFaces)
    requires |positionBinds| == |clusters|
    ensures Welded(posIndices, texIndices, clusters, positionBinds, numFaces, flip, vertices, triangles)
  {
    var entries := WeldCorners(posIndices, texIndices, clusters, numFaces, flip);
    WeldPartitionsSlots(entries, posIndices, texIndices, clusters, numFaces, flip);
    EntryPositionsInRange(entries, posIndices, texIndices, clusters, numFaces, flip);
    vertices, triangles := BuildVertices(entries, positionBinds, numFaces);
    CornersCarryTheirKeys(entries, vertices, triangles, posIndices, texIndices, clusters, numFaces, flip);
    SharedVertexIffSameKey(vertices, triangles, posIndices, texIndices, clusters, numFaces, flip);
    CornersInRange(triangles, |vertices|);
    forall v | 0 <= v < |vertices| ensures Used(triangles, v) {
      assert entries[v] in entries;
      assert CornerAt(triangles, entries[v].refs[0]) == v;
    }
  }

  lemma EntryPositionsInRange(entries: seq<VertexIndex>, posIndices: seq<nat>, texIndices: seq<seq<nat>>,
                              clusters: seq<seq<seq<nat>>>, numFaces: nat, flip: bool)
    requires WeldInputs(posIndices, texIndices, clusters, numFaces)
    requires KeysConsistent(entries, posIndices, texIndices, clusters, numFaces, flip)
    ensures forall v :: 0 <= v < |entries| ==> 0 <= entries[v].key.pos < |clusters|
  {
    forall v | 0 <= v < |entries| ensures 0 <= entries[v].key.pos < |clusters| {
      var x := entries[v];
      assert x in entries;
      var r := x.refs[0];
      assert r < 3 * numFaces && CornerKey(posIndices, texIndices, clusters, numFaces, flip, r) == x.key;
      var off := CornerOffset(r, flip);
      assert off < 3 * numFaces;
      assert x.key.pos == posIndices[off];
    }
  }

  /** After the write-back, every corner points at the vertex built from its own key. */
  lemma CornersCarryTheirKeys(entries: seq<VertexIndex>, vertices: seq<Vertex>, triangles: seq<Triangle>,
                              posIndices: seq<nat>, texIndices: seq<seq<nat>>, clusters: seq<seq<seq<nat>>>,
                              numFaces: nat, flip: bool)
    requires WeldInputs(posIndices, texIndices, clusters, numFaces)
    requires KeysConsistent(entries, posIndices, texIndices, clusters, numFaces, flip)
    requires Partitioned(entries, 3 * numFaces)
    requires |vertices| == |entries| && forall v :: 0 <= v < |entries| ==> vertices[v].source == entries[v].key
    requires |triangles| == numFaces
    requires forall v, t :: 0 <= v < |entries| && 0 <= t < |entries[v].refs| ==>
               CornerAt(triangles, entries[v].refs[t]) == v
    ensures forall r :: 0 <= r < 3 * numFaces ==>
              CornerAt(triangles, r) < |vertices|
              && vertices[CornerAt(triangles, r)].source == CornerKey(posIndices, texIndices, clusters, numFaces, flip, r)
  {
    forall r | 0 <= r < 3 * numFaces
      ensures CornerAt(triangles, r) < |vertices|
              && vertices[CornerAt(triangles, r)].source == CornerKey(posIndices, texIndices, clusters, numFaces, flip, r)
    {
      assert Covered(entries, r);
      var w, t :| 0 <= w < |entries| && 0 <= t < |entries[w].refs| && entries[w].refs[t] == r;
      assert entries[w] in entries;
    }
  }

  /** The welding property: with vertices in strictly ascending key order and
      every corner pointing at the vertex of its own key, two corners share an
      output vertex exactly when their keys are equal. */
  lemma SharedVertexIffSameKey(vertices: seq<Vertex>, triangles: seq<Triangle>, posIndices: seq<nat>,
                               texIndices: seq<seq<nat>>, clusters: seq<seq<seq<nat>>>, numFaces: nat, flip: bool)
    requires WeldInputs(posIndices, texIndices, clusters, numFaces)
    requires |triangles| == numFaces
    requires forall a, b :: 0 <= a < b < |vertices| ==> KeyLess(vertices[a].source, vertices[b].source)
    requires forall r :: 0 <= r < 3 * numFaces ==>
               CornerAt(triangles, r) < |vertices|
               && vertices[CornerAt(triangles, r)].source == CornerKey(posIndices, texIndices, clusters, numFaces, flip, r)
    ensures forall r1, r2 :: 0 <= r1 < 3 * numFaces && 0 <= r2 < 3 * numFaces ==>
              (CornerAt(triangles, r1) == CornerAt(triangles, r2) <==>
               CornerKey(posIndices, texIndices, clusters, numFaces, flip, r1)
               == CornerKey(posIndices, texIndices, clusters, numFaces, flip, r2))
  {
    forall r1, r2 | 0 <= r1 < 3 * numFaces && 0 <= r2 < 3 * numFaces
      ensures CornerAt(triangles, r1) == CornerAt(triangles, r2) <==>
              CornerKey(posIndices, texIndices, clusters, numFaces, flip, r1)
              == CornerKey(posIndices, texIndices, clusters, numFaces, flip, r2)
    {
      var a, b := CornerAt(triangles, r1), CornerAt(triangles, r2);
      if a != b {
        KeyLessIrreflexive(vertices[a].source);
      }
    }
  }

  lemma CornersInRange(triangles: seq<Triangle>, n: nat)
    requires forall r :: 0 <= r < 3 * |triangles| ==> CornerAt(triangles, r) < n
    ensures forall t :: 0 <= t < |triangles| ==> triangles[t].InRange(n)
  {
    forall t | 0 <= t < |triangles| ensures triangles[t].InRange(n) {
      assert CornerAt(triangles, 3 * t) == triangles[t].Corner(0);
      assert CornerAt(triangles, 3 * t + 1) == triangles[t].Corner(1);
      assert CornerAt(triangles, 3 * t + 2) == triangles[t].Corner(2);
    }
  }
}
