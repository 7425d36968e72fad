/**
  The joint map of the exporter (joints_, a std::map<std::string, joint_t>)
  and the two passes over it: remove_redundant_joints, which keeps the bound
  joints and their ancestors, and the ordering loop of write_xml, which
  numbers the joints so that every parent comes before its children.
 */
module Joints {
  import opened MeshTypes
  import opened VertexOrder

  type JointMap = map<string, Joint>

  /** A ranking of the joints in which every parent that is itself a joint
      ranks strictly below its child. */
  ghost predicate Ranked(joints: JointMap, rank: map<string, nat>) {
    forall n :: n in joints ==>
      n in rank && (joints[n].parentName in joints ==>
                      joints[n].parentName in rank && rank[joints[n].parentName] < rank[n])
  }

  /** The parent links of the joint map have no cycle. Both passes loop
      forever on a cycle; the exporter reads the links from a scene tree. */
  ghost predicate Acyclic(joints: JointMap) {
    exists rank :: Ranked(joints, rank)
  }

  /** A walk up the parent links: every step goes from a joint to its parent,
      and every name on the walk is a joint. */
  ghost predicate ParentPath(joints: JointMap, path: seq<string>) {
    && |path| > 0
    && (forall i :: 0 <= i < |path| ==> path[i] in joints)
    && (forall i :: 0 <= i < |path| - 1 ==> path[i + 1] == joints[path[i]].parentName)
  }

  /** k is a bound joint or an ancestor of one, through links present in the map. */
  ghost predicate Reaches(joints: JointMap, used: set<string>, k: string) {
    exists path :: ParentPath(joints, path) && path[0] in used && path[|path| - 1] == k
  }

  /** Every joint in s whose parent is a joint has its parent in s as well. */
  ghost predicate ClosedUnderParent(joints: JointMap, s: set<string>) {
    forall k :: k in s && k in joints && joints[k].parentName in joints ==> joints[k].parentName in s
  }

  // ---------------------------------------------------------------------
  // Iterating the map in key order
  // ---------------------------------------------------------------------

  ghost function Smallest(s: set<string>): (m: string)
    requires s != {}
    ensures m in s
  {
    SmallestNameExists(s);
    var m :| m in s && forall x :: x in s ==> !StringLess(x, m);
    m
  }

  /** No name of the set precedes Smallest. */
  lemma SmallestIsLeast(s: set<string>)
    requires s != {}
    ensures forall x :: x in s ==> !StringLess(x, Smallest(s))
  {
  }

  /** The one element of a set that no other element precedes. */
  lemma SmallestIsUnique(s: set<string>, m: string)
    requires m in s && forall x :: x in s ==> !StringLess(x, m)
    ensures s != {} && m == Smallest(s)
  {
    var n := Smallest(s);
    SmallestIsLeast(s);
    StringLessIsStrictTotal(m, n, m);
  }

  /** The names of a set in ascending std::string order: the order in which
      a std::map<std::string, _> is walked. */
  ghost function SortedNames(s: set<string>): (r: seq<string>)
    ensures |r| == |s|
    decreases |s|
  {
    if s == {} then [] else [Smallest(s)] + SortedNames(s - {Smallest(s)})
  }

  /** SortedNames lists exactly the names of the set. */
  lemma {:induction false} SortedNamesMembers(s: set<string>)
    ensures forall x :: x in s <==> x in SortedNames(s)
    decreases |s|
  {
    if s != {} {
      var m := Smallest(s);
      SortedNamesMembers(s - {m});
      assert SortedNames(s) == [m] + SortedNames(s - {m});
    }
  }

  /** SortedNames is strictly ascending in std::string order. */
  lemma {:induction false} SortedNamesAscending(s: set<string>)
    ensures forall a, b :: 0 <= a < b < |SortedNames(s)| ==> StringLess(SortedNames(s)[a], SortedNames(s)[b])
    decreases |s|
  {
    if s != {} {
      var m := Smallest(s);
      var rest := SortedNames(s - {m});
      SortedNamesAscending(s - {m});
      SortedNamesMembers(s - {m});
      var r := SortedNames(s);
      assert r == [m] + rest;
      forall a, b | 0 <= a < b < |r| ensures StringLess(r[a], r[b]) {
        if a == 0 {
          assert rest[b - 1] in s - {m};
          SmallestPrecedes(s, rest[b - 1]);
          assert r[b] == rest[b - 1];
        } else {
          assert r[a] == rest[a - 1] && r[b] == rest[b - 1];
        }
      }
    }
  }

  lemma SmallestPrecedes(s: set<string>, y: string)
    requires s != {} && y in s && y != Smallest(s)
    ensures StringLess(Smallest(s), y)
  {
    SmallestIsLeast(s);
    StringLessIsStrictTotal(Smallest(s), y, Smallest(s));
  }

  lemma SortedNamesIsSortedSet(s: set<string>)
    ensures forall a, b :: 0 <= a < b < |SortedNames(s)| ==> StringLess(SortedNames(s)[a], SortedNames(s)[b])
    ensures forall x :: x in s <==> x in SortedNames(s)
  {
    SortedNamesAscending(s);
    SortedNamesMembers(s);
  }

  lemma SortedNamesAreDistinct(s: set<string>)
    ensures NoDuplicates(SortedNames(s))
  {
    SortedNamesIsSortedSet(s);
    var r := SortedNames(s);
    forall a, b | 0 <= a < b < |r| ensures r[a] != r[b] {
      StringLessIsStrictTotal(r[a], r[a], r[a]);
    }
  }

  /** Taking the least name off the front of the remaining set extends the
      listing by that name. */
  lemma SortedNamesStep(names: seq<string>, rest: set<string>, m: string)
    requires m in rest && forall x :: x in rest ==> !StringLess(x, m)
    ensures names + SortedNames(rest) == (names + [m]) + SortedNames(rest - {m})
  {
    SmallestIsUnique(rest, m);
    assert SortedNames(rest) == [m] + SortedNames(rest - {m});
  }

  /** Walking the keys of the joint map from begin to end. */
  method IterateNames(s: set<string>) returns (names: seq<string>)
    ensures names == SortedNames(s)
  {
    names := [];
    var rest := s;
    while rest != {}
      invariant names + SortedNames(rest) == SortedNames(s)
      decreases |rest|
    {
      SmallestNameExists(rest);
      var m :| m in rest && forall x :: x in rest ==> !StringLess(x, m);
      SortedNamesStep(names, rest, m);
      names := names + [m];
      rest := rest - {m};
    }
  }

  // ---------------------------------------------------------------------
  // remove_redundant_joints
  // ---------------------------------------------------------------------

  /** The joint names of one bind list. */
  function BindNames(binds: seq<Bind>): (r: set<string>)
    ensures forall n :: n in r <==> exists b :: 0 <= b < |binds| && binds[b].joint == n
  {
    set b | b in binds :: b.joint
  }

  /** The joint names bound by a list of vertices. */
  function VertexBindNames(vs: seq<Vertex>): set<string> {
    if vs == [] then {} else VertexBindNames(vs[..|vs| - 1]) + BindNames(vs[|vs| - 1].binds)
  }

  /** The joint names bound by any vertex of any mesh (joints_used). */
  function MeshBindNames(objs: seq<ObjectInfo>): set<string> {
    if objs == [] then {} else MeshBindNames(objs[..|objs| - 1]) + VertexBindNames(objs[|objs| - 1].vertices)
  }

  ghost predicate BoundByVertex(vs: seq<Vertex>, n: string) {
    exists v, b :: 0 <= v < |vs| && 0 <= b < |vs[v].binds| && vs[v].binds[b].joint == n
  }

  ghost predicate BoundByMesh(objs: seq<ObjectInfo>, n: string) {
    exists p :: 0 <= p < |objs| && BoundByVertex(objs[p].vertices, n)
  }

  lemma {:induction false} VertexBindNamesAreBound(vs: seq<Vertex>)
    ensures forall n :: n in VertexBindNames(vs) <==> BoundByVertex(vs, n)
  {
    if vs != [] {
      var init := vs[..|vs| - 1];
      VertexBindNamesAreBound(init);
      forall n ensures n in VertexBindNames(vs) <==> BoundByVertex(vs, n) {
        if BoundByVertex(vs, n) {
          var v, b :| 0 <= v < |vs| && 0 <= b < |vs[v].binds| && vs[v].binds[b].joint == n;
          if v < |vs| - 1 {
            assert init[v] == vs[v];
            assert BoundByVertex(init, n);
          }
        }
        if n in VertexBindNames(init) {
          var v, b :| 0 <= v < |init| && 0 <= b < |init[v].binds| && init[v].binds[b].joint == n;
          assert vs[v] == init[v];
        }
      }
    }
  }

  /** joints_used holds exactly the names some vertex of some mesh binds to. */
  lemma {:induction false} MeshBindNamesAreBound(objs: seq<ObjectInfo>)
    ensures forall n :: n in MeshBindNames(objs) <==> BoundByMesh(objs, n)
  {
    if objs != [] {
      var init := objs[..|objs| - 1];
      var last := objs[|objs| - 1];
      MeshBindNamesAreBound(init);
      VertexBindNamesAreBound(last.vertices);
      forall n ensures n in MeshBindNames(objs) <==> BoundByMesh(objs, n) {
        if BoundByMesh(objs, n) {
          var p :| 0 <= p < |objs| && BoundByVertex(objs[p].vertices, n);
          if p < |objs| - 1 {
            assert init[p] == objs[p];
          }
        }
        if n in MeshBindNames(init) {
          var p :| 0 <= p < |init| && BoundByVertex(init[p].vertices, n);
          assert objs[p] == init[p];
        }
      }
    }
  }

  /** The three nested loops that gather joints_used. */
  method CollectBoundNames(objs: seq<ObjectInfo>) returns (used: set<string>)
    ensures used == MeshBindNames(objs)
  {
    used := {};
    var p := 0;
    while p < |objs|
      invariant 0 <= p <= |objs|
      invariant used == MeshBindNames(objs[..p])
    {
      assert objs[..p + 1][..p] == objs[..p];
      var vs := objs[p].vertices;
      var v := 0;
      while v < |vs|
        invariant 0 <= v <= |vs|
        invariant used == MeshBindNames(objs[..p]) + VertexBindNames(vs[..v])
      {
        assert vs[..v + 1][..v] == vs[..v];
        var binds := vs[v].binds;
        var b := 0;
        while b < |binds|
          invariant 0 <= b <= |binds|
          invariant used == MeshBindNames(objs[..p]) + VertexBindNames(vs[..v]) + BindNames(binds[..b])
        {
          assert binds[..b + 1] == binds[..b] + [binds[b]];
          used := used + {binds[b].joint};
          b := b + 1;
        }
        assert binds[..b] == binds;
        v := v + 1;
      }
      assert vs[..v] == vs;
      p := p + 1;
    }
    assert objs[..p] == objs;
  }

  /** The inner while loop: from a kept joint, climb the parent links while
      the parent is a joint, inserting every parent met. */
  method InsertAncestors(joints: JointMap, ghost rank: map<string, nat>, ghost used: set<string>,
                         s: set<string>, start: string)
    returns (r: set<string>)
    requires Ranked(joints, rank)
    requires start in joints && start in s && Reaches(joints, used, start)
    ensures s <= r
    ensures forall k :: k in r ==> k in s || Reaches(joints, used, k)
    ensures forall k :: k in r && (k !in s || k == start) ==>
              k in joints && (joints[k].parentName in joints ==> joints[k].parentName in r)
  {
    r := s;
    var cur := start;
    while joints[cur].parentName in joints
      invariant cur in joints && cur in r && Reaches(joints, used, cur)
      invariant s <= r
      invariant forall k :: k in r ==> k in s || Reaches(joints, used, k)
      invariant forall k :: k in r && (k !in s || k == start) && k != cur ==>
                  k in joints && (joints[k].parentName in joints ==> joints[k].parentName in r)
      decreases rank[cur]
    {
      var p := joints[cur].parentName;
      ghost var path :| ParentPath(joints, path) && path[0] in used && path[|path| - 1] == cur;
      assert ParentPath(joints, path + [p]);
      assert Reaches(joints, used, p) by {
        assert (path + [p])[0] in used && (path + [p])[|path + [p]| - 1] == p;
      }
      r := r + {p};
      cur := p;
    }
  }

  lemma {:induction false} PathStaysInside(joints: JointMap, s: set<string>, path: seq<string>)
    requires ParentPath(joints, path) && path[0] in s && ClosedUnderParent(joints, s)
    ensures forall i :: 0 <= i < |path| ==> path[i] in s
    decreases |path|
  {
    if |path| > 1 {
      var init := path[..|path| - 1];
      assert ParentPath(joints, init);
      PathStaysInside(joints, s, init);
      assert path[|path| - 2] == init[|path| - 2];
    }
  }

  /** The outer loop over the joints in key order: every joint already kept
      has its ancestors inserted. */
  method InsertAllAncestors(joints: JointMap, ghost rank: map<string, nat>, used: set<string>, names: seq<string>)
    returns (s: set<string>)
    requires Ranked(joints, rank)
    requires forall q :: 0 <= q < |names| ==> names[q] in joints
    ensures used <= s
    ensures forall k :: k in s ==> k in used || Reaches(joints, used, k)
    ensures forall q :: 0 <= q < |names| && names[q] in s && joints[names[q]].parentName in joints ==>
              joints[names[q]].parentName in s
  {
    s := used;
    var i := 0;
    while i < |names|
      invariant 0 <= i <= |names|
      invariant used <= s
      invariant forall k :: k in s ==> k in used || Reaches(joints, used, k)
      invariant forall q :: 0 <= q < i && names[q] in s && joints[names[q]].parentName in joints ==>
                  joints[names[q]].parentName in s
    {
      var name := names[i];
      if name in s {
        if name in used {
          assert ParentPath(joints, [name]);
        }
        s := InsertAncestors(joints, rank, used, s, name);
      }
      i := i + 1;
    }
  }

  /** A set that holds the bound names, is closed under parent links and
      holds nothing else than bound names and their ancestors holds exactly
      the reachable joints. */
  lemma KeptAreReachable(joints: JointMap, used: set<string>, s: set<string>)
    requires used <= s
    requires forall k :: k in s ==> k in used || Reaches(joints, used, k)
    requires ClosedUnderParent(joints, s)
    ensures forall k :: k in joints ==> (k in s <==> Reaches(joints, used, k))
  {
    forall k | k in joints ensures k in s <==> Reaches(joints, used, k) {
      if Reaches(joints, used, k) {
        var path :| ParentPath(joints, path) && path[0] in used && path[|path| - 1] == k;
        PathStaysInside(joints, s, path);
      }
      if k in s && k in used {
        assert ParentPath(joints, [k]);
      }
    }
  }

  /** The names remove_redundant_joints keeps: starting from the bound names,
      every joint in the map that is bound is followed up to its root. */
  method KeptNames(joints: JointMap, used: set<string>) returns (s: set<string>)
    requires Acyclic(joints)
    ensures forall k :: k in joints ==> (k in s <==> Reaches(joints, used, k))
  {
    ghost var rank :| Ranked(joints, rank);
    var names := IterateNames(joints.Keys);
    SortedNamesMembers(joints.Keys);
    s := InsertAllAncestors(joints, rank, used, names);
    assert ClosedUnderParent(joints, s) by {
      forall k | k in s && k in joints && joints[k].parentName in joints ensures joints[k].parentName in s {
        var q :| 0 <= q < |names| && names[q] == k;
      }
    }
    KeptAreReachable(joints, used, s);
  }

  /** The erase loop: the keys are walked in ascending order, as in
      IterateNames, and every joint whose name was not kept is removed. */
  method EraseUnkept(joints: JointMap, s: set<string>) returns (r: JointMap)
    ensures forall k :: k in r <==> k in joints && k in s
    ensures forall k :: k in r ==> r[k] == joints[k]
  {
    r := joints;
    var rest := joints.Keys;
    while rest != {}
      invariant rest <= joints.Keys
      invariant forall k :: k in r <==> k in joints && (k in s || k in rest)
      invariant forall k :: k in r ==> r[k] == joints[k]
      decreases |rest|
    {
      SmallestNameExists(rest);
      var k :| k in rest && forall x :: x in rest ==> !StringLess(x, k);
      if k !in s {
        r := r - {k};
      }
      rest := rest - {k};
    }
  }

  /** remove_redundant_joints: the joints that survive are exactly the bound
      joints of the map and every ancestor reachable from one of them, each
      record unchanged. */
  method RemoveRedundantJoints(joints: JointMap, objs: seq<ObjectInfo>) returns (r: JointMap)
    requires Acyclic(joints)
    ensures forall k :: k in r <==> k in joints && Reaches(joints, MeshBindNames(objs), k)
    ensures forall k :: k in r ==> r[k] == joints[k]
  {
    var used := CollectBoundNames(objs);
    var s := KeptNames(joints, used);
    r := EraseUnkept(joints, s);
  }

  /** The kept map is closed under parent links and stays acyclic, so the
      ordering loop of write_xml may run on it. */
  lemma KeptJointsClosed(joints: JointMap, used: set<string>, r: JointMap)
    requires Acyclic(joints)
    requires forall k :: k in r <==> k in joints && Reaches(joints, used, k)
    requires forall k :: k in r ==> r[k] == joints[k]
    ensures Acyclic(r)
    ensures forall k :: k in r && r[k].parentName in joints ==> r[k].parentName in r
  {
    var rank :| Ranked(joints, rank);
    assert Ranked(r, rank);
    forall k | k in r && r[k].parentName in joints ensures r[k].parentName in r {
      var path :| ParentPath(joints, path) && path[0] in used && path[|path| - 1] == k;
      var p := joints[k].parentName;
      assert ParentPath(joints, path + [p]);
      assert (path + [p])[0] in used && (path + [p])[|path + [p]| - 1] == p;
    }
  }

  // ---------------------------------------------------------------------
  // The joint ordering loop of write_xml
  // ---------------------------------------------------------------------

  /** Every non-empty parent name is a joint (the assert in the ordering loop). */
  ghost predicate ParentsPresent(joints: JointMap) {
    forall n :: n in joints && joints[n].parentName != "" ==> joints[n].parentName in joints
  }

  /** The position of the parent of order[i], or -1 for a root (par_index). */
  ghost predicate ParentAt(joints: JointMap, order: seq<string>, i: nat, p: int)
    requires i < |order| && order[i] in joints
  {
    if joints[order[i]].parentName == "" then p == -1
    else 0 <= p < |order| && order[p] == joints[order[i]].parentName
  }

  /** The parent of order[i] is a root marker or sits at or before i. */
  ghost predicate ParentNotAfter(joints: JointMap, order: seq<string>, i: nat)
    requires i < |order| && order[i] in joints
  {
    exists p :: ParentAt(joints, order, i, p) && p <= i
  }

  /** The parent of order[i] is a root marker or sits strictly before i. */
  ghost predicate ParentBefore(joints: JointMap, order: seq<string>, i: nat)
    requires i < |order| && order[i] in joints
  {
    exists p :: ParentAt(joints, order, i, p) && p < i
  }

  /** std::find: the first position of x. */
  method FindName(names: seq<string>, x: string) returns (p: nat)
    requires x in names
    ensures p < |names| && names[p] == x
    ensures forall q :: 0 <= q < p ==> names[q] != x
  {
    p := 0;
    while names[p] != x
      invariant 0 <= p < |names|
      invariant forall q :: 0 <= q < p ==> names[q] != x
      invariant x in names[p..]
      decreases |names| - p
    {
      assert names[p..] == [names[p]] + names[p + 1..];
      p := p + 1;
    }
  }

  /** Joint i is the first whose parent comes after it, at position p. */
  ghost predicate FirstMisplacedAt(joints: JointMap, order: seq<string>, i: nat, p: nat)
    requires forall n :: n in order ==> n in joints
  {
    && i < p < |order|
    && ParentAt(joints, order, i, p)
    && forall i' :: 0 <= i' < i ==> ParentNotAfter(joints, order, i')
  }

  /** The body of the while (swapped) loop: the first joint whose parent
      comes after it, with that parent's position, or None. */
  method FirstMisplaced(joints: JointMap, order: seq<string>) returns (r: Option<(nat, nat)>)
    requires ParentsPresent(joints)
    requires forall n :: n in order <==> n in joints
    requires NoDuplicates(order)
    ensures r.Some? ==> FirstMisplacedAt(joints, order, r.value.0, r.value.1)
    ensures r.None? ==> forall i :: 0 <= i < |order| ==> ParentNotAfter(joints, order, i)
  {
    var i := 0;
    while i < |order|
      invariant 0 <= i <= |order|
      invariant forall i' :: 0 <= i' < i ==> ParentNotAfter(joints, order, i')
    {
      var parIndex: int := -1;
      var parent := joints[order[i]].parentName;
      if parent != "" {
        parIndex := FindName(order, parent);
      }
      assert ParentAt(joints, order, i, parIndex);
      if parIndex > i {
        return Some((i, parIndex as nat));
      }
      i := i + 1;
    }
    return None;
  }

  ghost predicate AllRanked(order: seq<string>, rank: map<string, nat>) {
    forall k :: 0 <= k < |order| ==> order[k] in rank
  }

  /** Σ rank(order[k]) · k: every swap of the loop raises it. */
  ghost function Potential(order: seq<string>, rank: map<string, nat>): int
    requires AllRanked(order, rank)
  {
    if order == [] then 0
    else Potential(order[..|order| - 1], rank) + rank[order[|order| - 1]] * (|order| - 1)
  }

  lemma {:induction false} PotentialUpdate(order: seq<string>, rank: map<string, nat>, i: nat, x: string)
    requires AllRanked(order, rank)
    requires i < |order| && x in rank
    ensures AllRanked(order[i := x], rank)
    ensures Potential(order[i := x], rank) == Potential(order, rank) + (rank[x] - rank[order[i]]) * i
    decreases |order|
  {
    var n := |order|;
    var u := order[i := x];
    assert u[..n - 1] == if i < n - 1 then order[..n - 1][i := x] else order[..n - 1];
    if i < n - 1 {
      PotentialUpdate(order[..n - 1], rank, i, x);
    }
  }

  ghost predicate RanksAtMost(order: seq<string>, rank: map<string, nat>, bound: nat) {
    forall k :: 0 <= k < |order| ==> order[k] in rank && rank[order[k]] <= bound
  }

  lemma RanksOfMembers(names: seq<string>, order: seq<string>, rank: map<string, nat>, bound: nat)
    requires RanksAtMost(names, rank, bound)
    requires forall n :: n in order ==> n in names
    ensures RanksAtMost(order, rank, bound)
  {
    forall k | 0 <= k < |order| ensures order[k] in rank && rank[order[k]] <= bound {
      assert order[k] in order;
      var q :| 0 <= q < |names| && names[q] == order[k];
    }
  }

  /** The potential never exceeds |order|² times a bound on the ranks. */
  lemma {:induction false} PotentialBounded(order: seq<string>, rank: map<string, nat>, bound: nat)
    requires RanksAtMost(order, rank, bound)
    ensures Potential(order, rank) <= bound * |order| * |order|
    decreases |order|
  {
    if order != [] {
      var n := |order|;
      var init := order[..n - 1];
      assert RanksAtMost(init, rank, bound) by {
        forall k | 0 <= k < |init| ensures init[k] in rank && rank[init[k]] <= bound {
          assert init[k] == order[k];
        }
      }
      PotentialBounded(init, rank, bound);
      var r, m := rank[order[n - 1]], n - 1;
      assert Potential(order, rank) == Potential(init, rank) + r * m;
      SquareBoundStep(r, bound, m);
    }
  }

  lemma SquareBoundStep(r: nat, bound: nat, m: nat)
    requires r <= bound
    ensures bound * m * m + r * m <= bound * (m + 1) * (m + 1)
  {
    assert r * m <= bound * m;
    assert bound * (m + 1) * (m + 1) == bound * m * m + 2 * (bound * m) + bound;
  }

  /** A bound on the ranks of a list of names. */
  ghost function RankSum(names: seq<string>, rank: map<string, nat>): (r: nat)
    requires forall k :: 0 <= k < |names| ==> names[k] in rank
    ensures forall k :: 0 <= k < |names| ==> rank[names[k]] <= r
  {
    if names == [] then 0 else RankSum(names[..|names| - 1], rank) + rank[names[|names| - 1]]
  }

  /** Swapping a joint with its later parent strictly raises the potential. */
  lemma SwapRaisesPotential(order: seq<string>, rank: map<string, nat>, i: nat, p: nat)
    requires AllRanked(order, rank)
    requires i < p < |order| && rank[order[p]] < rank[order[i]]
    ensures AllRanked(order[i := order[p]][p := order[i]], rank)
    ensures Potential(order[i := order[p]][p := order[i]], rank) > Potential(order, rank)
  {
    var a, b := order[i], order[p];
    var u := order[i := b];
    PotentialUpdate(order, rank, i, b);
    PotentialUpdate(u, rank, p, a);
    assert u[p] == b;
    var d := rank[a] - rank[b];
    assert d > 0 && p - i > 0;
    assert (rank[b] - rank[a]) * i + (rank[a] - rank[b]) * p == d * (p - i);
    PositiveProduct(d, p - i);
  }

  lemma PositiveProduct(x: int, y: int)
    requires x > 0 && y > 0
    ensures x * y > 0
  {
  }

  /** The while (swapped) loop: joints_id_to_name starts in key order and
      ends as a permutation of the joint names in which every joint's
      parent has a smaller position (the assert before each bone is written). */
  method OrderJoints(joints: JointMap) returns (order: seq<string>)
    requires Acyclic(joints)
    requires ParentsPresent(joints)
    ensures multiset(order) == multiset(SortedNames(joints.Keys))
    ensures forall n :: n in order <==> n in joints
    ensures NoDuplicates(order)
    ensures forall i :: 0 <= i < |order| ==> ParentBefore(joints, order, i)
  {
    ghost var rank :| Ranked(joints, rank);
    var names := IterateNames(joints.Keys);
    SortedNamesMembers(joints.Keys);
    SortedNamesAreDistinct(joints.Keys);
    ghost var bound := RankSum(names, rank);
    ghost var cap := bound * |names| * |names|;
    order := names;
    RanksOfMembers(names, order, rank, bound);
    PotentialBounded(order, rank, bound);
    var swapped := true;
    while swapped
      invariant |order| == |names|
      invariant multiset(order) == multiset(names)
      invariant forall n :: n in order <==> n in joints
      invariant NoDuplicates(order)
      invariant RanksAtMost(order, rank, bound)
      invariant Potential(order, rank) <= cap
      invariant !swapped ==> forall i :: 0 <= i < |order| ==> ParentNotAfter(joints, order, i)
      decreases cap - Potential(order, rank), swapped
    {
      order, swapped := SwapFirstMisplaced(joints, rank, order);
      if swapped {
        RanksOfMembers(names, order, rank, bound);
        PotentialBounded(order, rank, bound);
      }
    }
    NoJointIsItsOwnParent(joints, rank, order);
  }

  /** One pass of the while (swapped) loop: the first joint whose parent
      comes after it trades places with that parent, and the potential
      rises; or no such joint exists and nothing changes. */
  method SwapFirstMisplaced(joints: JointMap, ghost rank: map<string, nat>, order: seq<string>)
    returns (r: seq<string>, swapped: bool)
    requires Ranked(joints, rank)
    requires ParentsPresent(joints)
    requires forall n :: n in order <==> n in joints
    requires NoDuplicates(order)
    ensures |r| == |order| && multiset(r) == multiset(order)
    ensures forall n :: n in r <==> n in joints
    ensures NoDuplicates(r)
    ensures AllRanked(r, rank)
    ensures swapped ==> Potential(r, rank) > Potential(order, rank)
    ensures swapped ==> exists i: nat, p: nat :: FirstMisplacedAt(joints, order, i, p) && r == order[i := order[p]][p := order[i]]
    ensures !swapped ==> r == order && forall i :: 0 <= i < |order| ==> ParentNotAfter(joints, order, i)
  {
    var found := FirstMisplaced(joints, order);
    if found.None? {
      return order, false;
    }
    var (i, p) := found.value;
    SwapRaisesPotential(order, rank, i, p);
    SwapKeepsNames(order, i, p);
    r := order[i := order[p]][p := order[i]];
    swapped := true;
  }

  /** Once no parent comes after its child, every parent comes strictly
      before: a joint is never its own parent in an acyclic map. */
  lemma NoJointIsItsOwnParent(joints: JointMap, rank: map<string, nat>, order: seq<string>)
    requires Ranked(joints, rank)
    requires forall n :: n in order ==> n in joints
    requires forall i :: 0 <= i < |order| ==> ParentNotAfter(joints, order, i)
    ensures forall i :: 0 <= i < |order| ==> ParentBefore(joints, order, i)
  {
    forall i | 0 <= i < |order| ensures ParentBefore(joints, order, i) {
      assert ParentNotAfter(joints, order, i);
      var p :| ParentAt(joints, order, i, p) && p <= i;
      var n := order[i];
      if joints[n].parentName != "" {
        assert rank[joints[n].parentName] < rank[n];
        assert order[p] != order[i];
      }
    }
  }

  /** Swapping two positions keeps the multiset, the set and the
      distinctness of the names. */
  lemma SwapKeepsNames(s: seq<string>, i: nat, p: nat)
    requires i < p < |s|
    requires NoDuplicates(s)
    ensures multiset(s[i := s[p]][p := s[i]]) == multiset(s)
    ensures forall n :: n in s[i := s[p]][p := s[i]] <==> n in s
    ensures NoDuplicates(s[i := s[p]][p := s[i]])
  {
    var u := s[i := s[p]][p := s[i]];
    SwapIsPermutation(s, i, p);
    forall n ensures n in u <==> n in s {
      assert n in multiset(u) <==> n in multiset(s);
    }
    forall a, b | 0 <= a < b < |u| ensures u[a] != u[b] {
      var a', b' := if a == i then p else if a == p then i else a, if b == i then p else if b == p then i else b;
      assert u[a] == s[a'] && u[b] == s[b'];
    }
  }

  lemma SwapIsPermutation(s: seq<string>, i: nat, p: nat)
    requires i < p < |s|
    ensures multiset(s[i := s[p]][p := s[i]]) == multiset(s)
  {
    var u := s[i := s[p]];
    assert multiset(u) == multiset(s) - multiset{s[i]} + multiset{s[p]};
    assert multiset(u[p := s[i]]) == multiset(u) - multiset{u[p]} + multiset{s[i]};
  }

  /** The joint ids that joints_name_to_id records: each name's position.
      The names are distinct, so std::map::insert never meets a present key. */
  method NumberJoints(order: seq<string>) returns (ids: map<string, nat>)
    requires NoDuplicates(order)
    ensures forall n :: n in ids <==> n in order
    ensures forall i :: 0 <= i < |order| ==> order[i] in ids && ids[order[i]] == i
  {
    ids := map[];
    var i := 0;
    while i < |order|
      invariant 0 <= i <= |order|
      invariant forall n :: n in ids <==> n in order[..i]
      invariant forall i' :: 0 <= i' < i ==> order[i'] in ids && ids[order[i']] == i'
    {
      ids := ids[order[i] := i];
      assert order[..i + 1] == order[..i] + [order[i]];
      i := i + 1;
    }
    assert order[..i] == order;
  }
}
