/**
  The std::set<vertex_index_t> of the welding pass, as a sequence kept
  strictly ascending under vertex_index_t's operator<. Iterating the set
  visits the entries in this order, and lookups and insertions go through
  the lower bound of a key, as they do in an ordered tree.
 */
module VertexSet {
  import opened MeshTypes
  import opened VertexOrder

  /** vertex_index_t: a welding key and the corner slots (i * 3 + j) that map to it. */
  datatype VertexIndex = VertexIndex(key: VertexKey, refs: seq<nat>)

  ghost predicate StrictlySorted(s: seq<VertexIndex>) {
    forall i, j :: 0 <= i < j < |s| ==> KeyLess(s[i].key, s[j].key)
  }

  /** The corner slots of all entries, in iteration order. */
  function AllRefs(s: seq<VertexIndex>): seq<nat> {
    if s == [] then [] else AllRefs(s[..|s| - 1]) + s[|s| - 1].refs
  }

  lemma {:induction false} AllRefsConcat(a: seq<VertexIndex>, b: seq<VertexIndex>)
    ensures AllRefs(a + b) == AllRefs(a) + AllRefs(b)
    decreases |b|
  {
    if b == [] {
      assert a + b == a;
    } else {
      assert (a + b)[..|a + b| - 1] == a + b[..|b| - 1];
      AllRefsConcat(a, b[..|b| - 1]);
    }
  }

  /** Number of leading entries whose key is below k (std::set::lower_bound). */
  function LowerBound(s: seq<VertexIndex>, k: VertexKey): (p: nat)
    ensures p <= |s|
    ensures forall i :: 0 <= i < p ==> KeyLess(s[i].key, k)
    ensures p < |s| ==> !KeyLess(s[p].key, k)
  {
    if |s| == 0 || !KeyLess(s[0].key, k) then 0 else 1 + LowerBound(s[1..], k)
  }

  /** In a sorted set every entry from the lower bound on is not below k. */
  lemma LowerBoundSplits(s: seq<VertexIndex>, k: VertexKey)
    requires StrictlySorted(s)
    ensures forall i :: LowerBound(s, k) <= i < |s| ==> !KeyLess(s[i].key, k)
  {
    var p := LowerBound(s, k);
    forall i | p < i < |s| ensures !KeyLess(s[i].key, k) {
      if KeyLess(s[i].key, k) {
        KeyLessTransitive(s[p].key, s[i].key, k);
      }
    }
  }

  /** std::set::find: the position of the entry equivalent to k, if any. */
  function Find(s: seq<VertexIndex>, k: VertexKey): (r: Option<nat>)
    requires StrictlySorted(s)
    ensures r.Some? ==> r.value < |s| && s[r.value].key == k
    ensures r.None? ==> forall i :: 0 <= i < |s| ==> s[i].key != k
  {
    var p := LowerBound(s, k);
    LowerBoundSplits(s, k);
    if p < |s| && !KeyLess(k, s[p].key) then
      KeyEquivalenceIsEquality(k, s[p].key);
      Some(p)
    else
      FindMissesAll(s, k, p);
      None
  }

  lemma FindMissesAll(s: seq<VertexIndex>, k: VertexKey, p: nat)
    requires StrictlySorted(s) && p == LowerBound(s, k)
    requires forall i :: p <= i < |s| ==> !KeyLess(s[i].key, k)
    requires !(p < |s| && !KeyLess(k, s[p].key))
    ensures forall i :: 0 <= i < |s| ==> s[i].key != k
  {
    forall i | 0 <= i < |s| ensures s[i].key != k {
      if i < p {
        KeyLessIrreflexive(k);
      } else if i == p {
        KeyLessIrreflexive(k);
      } else {
        KeyLessTransitive(k, s[p].key, s[i].key);
        KeyLessIrreflexive(k);
      }
    }
  }

  /** std::set::erase at a position. */
  function Erase(s: seq<VertexIndex>, i: nat): (r: seq<VertexIndex>)
    requires i < |s|
    ensures StrictlySorted(s) ==> StrictlySorted(r)
    ensures |r| == |s| - 1
  {
    s[..i] + s[i + 1..]
  }

  /** std::set::insert of a key not yet present: the entry goes to the lower bound. */
  function Insert(s: seq<VertexIndex>, e: VertexIndex): (r: seq<VertexIndex>)
    requires StrictlySorted(s)
    requires Find(s, e.key).None?
    ensures StrictlySorted(r)
    ensures exists p :: 0 <= p <= |s| && r == s[..p] + [e] + s[p..]
  {
    var p := LowerBound(s, e.key);
    LowerBoundSplits(s, e.key);
    InsertSorted(s, e, p);
    s[..p] + [e] + s[p..]
  }

  lemma InsertSorted(s: seq<VertexIndex>, e: VertexIndex, p: nat)
    requires StrictlySorted(s) && p == LowerBound(s, e.key)
    requires forall i :: p <= i < |s| ==> !KeyLess(s[i].key, e.key)
    requires forall i :: 0 <= i < |s| ==> s[i].key != e.key
    ensures StrictlySorted(s[..p] + [e] + s[p..])
  {
    var lo, hi := s[..p], s[p..];
    assert forall i :: 0 <= i < |lo| ==> lo[i] == s[i];
    assert forall i :: 0 <= i < |hi| ==> hi[i] == s[p + i];
    forall i | 0 <= i < |hi| ensures KeyLess(e.key, hi[i].key) {
      KeyEquivalenceIsEquality(e.key, hi[i].key);
    }
    SortedAroundPivot(lo, e, hi);
  }

  /** A sorted run below e, then e, then a sorted run above e is sorted. */
  lemma SortedAroundPivot(lo: seq<VertexIndex>, e: VertexIndex, hi: seq<VertexIndex>)
    requires StrictlySorted(lo) && StrictlySorted(hi)
    requires forall i :: 0 <= i < |lo| ==> KeyLess(lo[i].key, e.key)
    requires forall i :: 0 <= i < |hi| ==> KeyLess(e.key, hi[i].key)
    ensures StrictlySorted(lo + [e] + hi)
  {
    var r := lo + [e] + hi;
    var n := |lo|;
    assert forall i :: 0 <= i < n ==> r[i] == lo[i];
    assert r[n] == e;
    assert forall i :: n < i < |r| ==> r[i] == hi[i - n - 1];
    forall a, b | 0 <= a < b < |r| ensures KeyLess(r[a].key, r[b].key) {
      if a < n && b > n {
        KeyLessTransitive(lo[a].key, e.key, hi[b - n - 1].key);
      }
    }
  }

  /** Erasing entry i and then inserting an entry with the same key puts the
      new entry back at position i: the erase-and-reinsert idiom updates in place. */
  lemma EraseInsertIsUpdate(s: seq<VertexIndex>, i: nat, e: VertexIndex)
    requires StrictlySorted(s) && i < |s| && s[i].key == e.key
    ensures Find(Erase(s, i), e.key).None?
    ensures Insert(Erase(s, i), e) == s[i := e]
  {
    var t := Erase(s, i);
    forall a | 0 <= a < |t| ensures t[a].key != e.key {
      if a < i {
        assert t[a] == s[a];
        KeyLessIrreflexive(e.key);
      } else {
        assert t[a] == s[a + 1];
        KeyLessIrreflexive(e.key);
      }
    }
    assert Find(t, e.key).None?;
    var p := LowerBound(t, e.key);
    LowerBoundSplits(t, e.key);
    if p > i {
      assert t[i] == s[i + 1];
      assert KeyLess(t[i].key, e.key);
      KeyLessAsymmetric(s[i].key, s[i + 1].key);
    }
    assert p == i;
    assert t[..p] + [e] + t[p..] == s[i := e];
  }
}
