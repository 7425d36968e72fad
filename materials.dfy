/**
  remove_redundant_mtls: the material list is reduced to its distinct
  materials in order of first occurrence, and every mesh's material id is
  sent through the resulting old-to-new mapping.
 */
module Materials {
  import opened MeshTypes

  /** The eight-field comparison the exporter applies to two materials. */
  predicate SameMaterial(a: Material, b: Material) {
    && a.ambient == b.ambient
    && a.diffuse == b.diffuse
    && a.specular == b.specular
    && a.emit == b.emit
    && a.opacity == b.opacity
    && a.specularLevel == b.specularLevel
    && a.shininess == b.shininess
    && a.textureSlots == b.textureSlots
  }

  /** The eight fields are all a material has, so the comparison is equality. */
  lemma SameMaterialIsEquality(a: Material, b: Material)
    ensures SameMaterial(a, b) <==> a == b
  {
  }

  /** The distinct materials of a list, each at the place it first occurs. */
  function Distinct(s: seq<Material>): (r: seq<Material>)
    ensures |r| <= |s|
  {
    if s == [] then []
    else
      var d := Distinct(s[..|s| - 1]);
      if s[|s| - 1] in d then d else d + [s[|s| - 1]]
  }

  /** Distinct keeps every material of the list and adds none. */
  lemma {:induction false} DistinctMembers(s: seq<Material>)
    ensures forall x :: x in Distinct(s) <==> x in s
  {
    if s != [] {
      var init := s[..|s| - 1];
      DistinctMembers(init);
      assert s == init + [s[|s| - 1]];
    }
  }

  /** Distinct holds each material once. */
  lemma {:induction false} DistinctHasNoDuplicates(s: seq<Material>)
    ensures NoDuplicates(Distinct(s))
  {
    if s != [] {
      var init := s[..|s| - 1];
      DistinctHasNoDuplicates(init);
    }
  }

  /** The position of the first occurrence of x. */
  function FirstIndex(s: seq<Material>, x: Material): (i: nat)
    requires x in s
    ensures i < |s| && s[i] == x && forall j :: 0 <= j < i ==> s[j] != x
  {
    if s[0] == x then 0 else 1 + FirstIndex(s[1..], x)
  }

  lemma FirstIndexInPrefix(s: seq<Material>, n: nat, x: Material)
    requires n <= |s| && x in s[..n]
    ensures x in s && FirstIndex(s, x) == FirstIndex(s[..n], x)
  {
    var i := FirstIndex(s[..n], x);
    assert s[..n][i] == s[i];
    assert forall j :: 0 <= j < i ==> s[j] == s[..n][j];
  }

  /** Distinct keeps the materials in the order of their first occurrences. */
  lemma DistinctKeepsFirstOccurrenceOrder(s: seq<Material>)
    ensures forall a, b :: 0 <= a < b < |Distinct(s)| ==>
              Distinct(s)[a] in s && Distinct(s)[b] in s &&
              FirstIndex(s, Distinct(s)[a]) < FirstIndex(s, Distinct(s)[b])
  {
    DistinctMembers(s);
    forall a, b | 0 <= a < b < |Distinct(s)|
      ensures FirstIndex(s, Distinct(s)[a]) < FirstIndex(s, Distinct(s)[b])
    {
      FirstOccurrenceOrderPair(s, a, b);
    }
  }

  lemma {:induction false} FirstOccurrenceOrderPair(s: seq<Material>, a: nat, b: nat)
    requires a < b < |Distinct(s)|
    ensures Distinct(s)[a] in s && Distinct(s)[b] in s
    ensures FirstIndex(s, Distinct(s)[a]) < FirstIndex(s, Distinct(s)[b])
  {
    DistinctMembers(s);
    var n := |s|;
    var init := s[..n - 1];
    var d := Distinct(init);
    var r := Distinct(s);
    DistinctMembers(init);
    assert r[a] == d[a];
    FirstIndexInPrefix(s, n - 1, d[a]);
    if b < |d| {
      assert r[b] == d[b];
      FirstOccurrenceOrderPair(init, a, b);
      FirstIndexInPrefix(s, n - 1, d[b]);
    } else {
      assert r[b] == s[n - 1] && s[n - 1] !in init;
      forall j | 0 <= j < n - 1 ensures s[j] != s[n - 1] {
        assert s[j] == init[j];
      }
    }
  }

  /** The inner j loop: the first kept material equal to m, if any. */
  method FindMaterial(kept: seq<Material>, m: Material) returns (found: bool, j: nat)
    ensures found ==> j < |kept| && kept[j] == m
    ensures !found ==> m !in kept
  {
    j := 0;
    while j < |kept|
      invariant 0 <= j <= |kept|
      invariant forall j' :: 0 <= j' < j ==> kept[j'] != m
    {
      if SameMaterial(kept[j], m) {
        return true, j;
      }
      j := j + 1;
    }
    return false, j;
  }

  /** The i loop of remove_redundant_mtls: mtls_used and mtl_mapping. */
  method DedupMaterials(mtls: seq<Material>) returns (kept: seq<Material>, mapping: seq<nat>)
    ensures kept == Distinct(mtls)
    ensures |mapping| == |mtls|
    ensures forall i :: 0 <= i < |mtls| ==> mapping[i] < |kept| && kept[mapping[i]] == mtls[i]
  {
    kept, mapping := [], [];
    var i := 0;
    while i < |mtls|
      invariant 0 <= i <= |mtls|
      invariant kept == Distinct(mtls[..i])
      invariant |mapping| == i
      invariant forall i' :: 0 <= i' < i ==> mapping[i'] < |kept| && kept[mapping[i']] == mtls[i']
    {
      assert mtls[..i + 1][..i] == mtls[..i];
      var found, j := FindMaterial(kept, mtls[i]);
      if found {
        mapping := mapping + [j];
      } else {
        mapping := mapping + [|kept|];
        kept := kept + [mtls[i]];
      }
      i := i + 1;
    }
    assert mtls[..i] == mtls;
  }

  /** The closing loop: every mesh's material id goes through the mapping. */
  method RemapMaterialIds(objs: seq<ObjectInfo>, mapping: seq<nat>) returns (r: seq<ObjectInfo>)
    requires forall k :: 0 <= k < |objs| ==> objs[k].mtlId < |mapping|
    ensures |r| == |objs|
    ensures forall k :: 0 <= k < |objs| ==> r[k] == objs[k].(mtlId := mapping[objs[k].mtlId])
  {
    r := objs;
    var k := 0;
    while k < |r|
      invariant 0 <= k <= |r| == |objs|
      invariant forall k' :: 0 <= k' < k ==> r[k'] == objs[k'].(mtlId := mapping[objs[k'].mtlId])
      invariant forall k' :: k <= k' < |r| ==> r[k'] == objs[k']
    {
      r := r[k := r[k].(mtlId := mapping[r[k].mtlId])];
      k := k + 1;
    }
  }

  /** After the pass every mesh refers to a material equal to the one it
      referred to before, and no two materials are equal. */
  method RemoveRedundantMtls(mtls: seq<Material>, objs: seq<ObjectInfo>)
    returns (newMtls: seq<Material>, newObjs: seq<ObjectInfo>)
    requires forall k :: 0 <= k < |objs| ==> objs[k].mtlId < |mtls|
    ensures newMtls == Distinct(mtls)
    ensures NoDuplicates(newMtls)
    ensures |newObjs| == |objs|
    ensures forall k :: 0 <= k < |objs| ==>
              newObjs[k].mtlId < |newMtls| && newMtls[newObjs[k].mtlId] == mtls[objs[k].mtlId]
              && newObjs[k] == objs[k].(mtlId := newObjs[k].mtlId)
  {
    var mapping;
    newMtls, mapping := DedupMaterials(mtls);
    DistinctHasNoDuplicates(mtls);
    newObjs := RemapMaterialIds(objs, mapping);
  }
}
