/**
  Bind lists (binds_t): the (joint name, weight) lists the skinning modifiers
  build per position with add_joint_weight, and the influence limit that
  extract_object applies to every list when joints_per_ver_ > 0.
  Weights are reals; float rounding is not modelled.
 */
module Skinning {
  import opened MeshTypes

  /** No joint name occurs twice in the list. */
  ghost predicate DistinctJoints(binds: seq<Bind>) {
    forall a, b :: 0 <= a < b < |binds| ==> binds[a].joint != binds[b].joint
  }

  ghost predicate AllPositive(binds: seq<Bind>) {
    forall i :: 0 <= i < |binds| ==> binds[i].weight > 0.0
  }

  /** The total weight the list gives to one joint name. */
  function WeightOf(binds: seq<Bind>, name: string): real {
    if binds == [] then 0.0
    else WeightOf(binds[..|binds| - 1], name) + (if binds[|binds| - 1].joint == name then binds[|binds| - 1].weight else 0.0)
  }

  /** The sum of all weights of the list. */
  function Total(binds: seq<Bind>): real {
    if binds == [] then 0.0 else Total(binds[..|binds| - 1]) + binds[|binds| - 1].weight
  }

  lemma WeightOfAppend(binds: seq<Bind>, b: Bind, name: string)
    ensures WeightOf(binds + [b], name) == WeightOf(binds, name) + (if b.joint == name then b.weight else 0.0)
  {
    assert (binds + [b])[..|binds|] == binds;
  }

  lemma {:induction false} WeightOfUpdate(binds: seq<Bind>, i: nat, b: Bind, name: string)
    requires i < |binds|
    ensures WeightOf(binds[i := b], name)
            == WeightOf(binds, name) - (if binds[i].joint == name then binds[i].weight else 0.0)
               + (if b.joint == name then b.weight else 0.0)
    decreases |binds|
  {
    var n := |binds|;
    if i < n - 1 {
      assert binds[i := b][..n - 1] == binds[..n - 1][i := b];
      WeightOfUpdate(binds[..n - 1], i, b, name);
    } else {
      assert binds[i := b][..n - 1] == binds[..n - 1];
    }
  }

  /** Appending an entry for a joint not yet listed. */
  lemma AppendNewJoint(binds: seq<Bind>, b: Bind)
    requires b.weight > 0.0 && forall i :: 0 <= i < |binds| ==> binds[i].joint != b.joint
    ensures DistinctJoints(binds) ==> DistinctJoints(binds + [b])
    ensures AllPositive(binds) ==> AllPositive(binds + [b])
    ensures (binds + [b])[|binds|].joint == b.joint
    ensures forall name :: WeightOf(binds + [b], name) == WeightOf(binds, name) + (if name == b.joint then b.weight else 0.0)
  {
    forall name ensures WeightOf(binds + [b], name) == WeightOf(binds, name) + (if name == b.joint then b.weight else 0.0) {
      WeightOfAppend(binds, b, name);
    }
  }

  /** Adding a positive weight to entry i in place. */
  lemma AddToEntry(binds: seq<Bind>, i: nat, w: real)
    requires i < |binds| && w > 0.0
    ensures var r := binds[i := Bind(binds[i].joint, binds[i].weight + w)];
      && (forall k :: 0 <= k < |binds| ==> r[k].joint == binds[k].joint)
      && (DistinctJoints(binds) ==> DistinctJoints(r))
      && (AllPositive(binds) ==> AllPositive(r))
      && forall name :: WeightOf(r, name) == WeightOf(binds, name) + (if name == binds[i].joint then w else 0.0)
  {
    var b := Bind(binds[i].joint, binds[i].weight + w);
    forall name ensures WeightOf(binds[i := b], name) == WeightOf(binds, name) + (if name == binds[i].joint then w else 0.0) {
      WeightOfUpdate(binds, i, b, name);
    }
  }

  /** add_joint_weight: a positive weight is added to the first entry of the
      same joint, or appended as a new entry; any other weight is ignored. */
  method AddJointWeight(binds: seq<Bind>, jointName: string, weight: real) returns (r: seq<Bind>)
    ensures weight <= 0.0 ==> r == binds
    ensures weight > 0.0 && (forall i :: 0 <= i < |binds| ==> binds[i].joint != jointName) ==>
              r == binds + [Bind(jointName, weight)]
    ensures weight > 0.0 ==> forall i ::
              (0 <= i < |binds| && binds[i].joint == jointName && forall k :: 0 <= k < i ==> binds[k].joint != jointName)
              ==> r == binds[i := Bind(jointName, binds[i].weight + weight)]
    ensures |r| == |binds| || (weight > 0.0 && r == binds + [Bind(jointName, weight)]
                                 && forall i :: 0 <= i < |binds| ==> binds[i].joint != jointName)
    ensures forall i :: 0 <= i < |binds| ==> r[i].joint == binds[i].joint
    ensures weight > 0.0 ==> exists i :: 0 <= i < |r| && r[i].joint == jointName
    ensures DistinctJoints(binds) ==> DistinctJoints(r)
    ensures AllPositive(binds) ==> AllPositive(r)
    ensures forall name :: WeightOf(r, name) == WeightOf(binds, name) + (if weight > 0.0 && name == jointName then weight else 0.0)
  {
    r := binds;
    if weight > 0.0 {
      var repeat := false;
      var i := 0;
      while i < |r|
        invariant 0 <= i <= |r| == |binds|
        invariant !repeat && r == binds
        invariant forall k :: 0 <= k < i ==> binds[k].joint != jointName
      {
        if r[i].joint == jointName {
          AddToEntry(binds, i, weight);
          r := r[i := Bind(jointName, r[i].weight + weight)];
          assert r[i].joint == jointName;
          repeat := true;
          break;
        }
        i := i + 1;
      }
      if !repeat {
        AppendNewJoint(binds, Bind(jointName, weight));
        r := r + [Bind(jointName, weight)];
      }
    }
  }

  /** One contribution of a skinning modifier: a joint name and a weight. */
  datatype Contribution = Contribution(joint: string, weight: real)

  /** The positive weight the contributions give to one joint. */
  function PositiveWeightOf(cs: seq<Contribution>, name: string): real {
    if cs == [] then 0.0
    else PositiveWeightOf(cs[..|cs| - 1], name)
         + (if cs[|cs| - 1].joint == name && cs[|cs| - 1].weight > 0.0 then cs[|cs| - 1].weight else 0.0)
  }

  /** The position in cs of the first positive contribution to name, or |cs|
      when there is none. */
  function FirstPositive(cs: seq<Contribution>, name: string): (r: nat)
    ensures r <= |cs|
  {
    if cs == [] then 0
    else if cs[0].joint == name && cs[0].weight > 0.0 then 0
    else 1 + FirstPositive(cs[1..], name)
  }

  /** The first positive contribution to a joint is found where it is. */
  lemma {:induction false} FirstPositiveAt(cs: seq<Contribution>, i: nat)
    requires i < |cs| && cs[i].weight > 0.0
    requires forall k :: 0 <= k < i ==> !(cs[k].joint == cs[i].joint && cs[k].weight > 0.0)
    ensures FirstPositive(cs, cs[i].joint) == i
  {
    if i > 0 {
      forall k | 0 <= k < i - 1 ensures !(cs[1..][k].joint == cs[i].joint && cs[1..][k].weight > 0.0) {
        assert cs[1..][k] == cs[k + 1];
      }
      FirstPositiveAt(cs[1..], i - 1);
    }
  }

  /** binds holds one positive entry per joint, carrying the joint's summed
      positive weight in cs, and the entries are in the order of each joint's
      first positive contribution (an entry is appended when its joint first
      contributes, and later contributions update it in place). */
  ghost predicate Accumulated(cs: seq<Contribution>, binds: seq<Bind>) {
    && DistinctJoints(binds)
    && AllPositive(binds)
    && (forall name :: WeightOf(binds, name) == PositiveWeightOf(cs, name))
    && (forall x :: 0 <= x < |binds| ==> FirstPositive(cs, binds[x].joint) < |cs|)
    && (forall x, y :: 0 <= x < y < |binds| ==> FirstPositive(cs, binds[x].joint) < FirstPositive(cs, binds[y].joint))
  }

  /** After the contributions before i: every joint that has contributed a
      positive weight has an entry, and the entries are ordered by their
      joints' first positive contributions, all before i. */
  ghost predicate InFirstOrder(cs: seq<Contribution>, i: nat, binds: seq<Bind>) {
    && (forall k :: 0 <= k < i && k < |cs| && cs[k].weight > 0.0 ==> exists x :: 0 <= x < |binds| && binds[x].joint == cs[k].joint)
    && (forall x :: 0 <= x < |binds| ==> FirstPositive(cs, binds[x].joint) < i)
    && (forall x, y :: 0 <= x < y < |binds| ==> FirstPositive(cs, binds[x].joint) < FirstPositive(cs, binds[y].joint))
  }

  /** One add_joint_weight call keeps the bind list in first-contribution
      order: a new entry is appended only for a joint that has not
      contributed before. */
  lemma OrderStep(cs: seq<Contribution>, i: nat, before: seq<Bind>, after: seq<Bind>)
    requires i < |cs|
    requires InFirstOrder(cs, i, before)
    requires |after| == |before| || (cs[i].weight > 0.0 && after == before + [Bind(cs[i].joint, cs[i].weight)]
                                      && forall x :: 0 <= x < |before| ==> before[x].joint != cs[i].joint)
    requires forall x :: 0 <= x < |before| ==> after[x].joint == before[x].joint
    requires cs[i].weight > 0.0 ==> exists x :: 0 <= x < |after| && after[x].joint == cs[i].joint
    ensures InFirstOrder(cs, i + 1, after)
  {
    if |after| != |before| {
      assert forall k :: 0 <= k < i ==> !(cs[k].joint == cs[i].joint && cs[k].weight > 0.0);
      FirstPositiveAt(cs, i);
      assert after[|before|].joint == cs[i].joint;
    }
    forall k | 0 <= k < i && cs[k].weight > 0.0 ensures exists x :: 0 <= x < |after| && after[x].joint == cs[k].joint {
      var x :| 0 <= x < |before| && before[x].joint == cs[k].joint;
      assert after[x].joint == cs[k].joint;
    }
  }

  /** The bind list after the contributions before i. */
  ghost predicate AccumulatedUpTo(cs: seq<Contribution>, i: nat, binds: seq<Bind>)
    requires i <= |cs|
  {
    && DistinctJoints(binds)
    && AllPositive(binds)
    && (forall name :: WeightOf(binds, name) == PositiveWeightOf(cs[..i], name))
    && InFirstOrder(cs, i, binds)
  }

  lemma PositiveWeightOfStep(cs: seq<Contribution>, i: nat, name: string)
    requires i < |cs|
    ensures PositiveWeightOf(cs[..i + 1], name)
            == PositiveWeightOf(cs[..i], name) + (if cs[i].joint == name && cs[i].weight > 0.0 then cs[i].weight else 0.0)
  {
    assert cs[..i + 1][..i] == cs[..i];
  }

  /** The body of the accumulation loop: contribution i is fed to
      add_joint_weight. */
  method AddContribution(cs: seq<Contribution>, i: nat, binds: seq<Bind>) returns (r: seq<Bind>)
    requires i < |cs| && AccumulatedUpTo(cs, i, binds)
    ensures AccumulatedUpTo(cs, i + 1, r)
  {
    r := AddJointWeight(binds, cs[i].joint, cs[i].weight);
    OrderStep(cs, i, binds, r);
    forall name ensures WeightOf(r, name) == PositiveWeightOf(cs[..i + 1], name) {
      PositiveWeightOfStep(cs, i, name);
    }
  }

  /** The bind list of one position, built by a modifier's sequence of
      add_joint_weight calls on an initially empty list: one entry per joint
      with a positive contribution, holding the sum of those contributions,
      listed in first-contribution order. */
  method AccumulateBinds(cs: seq<Contribution>) returns (binds: seq<Bind>)
    ensures Accumulated(cs, binds)
  {
    binds := [];
    var i := 0;
    while i < |cs|
      invariant 0 <= i <= |cs|
      invariant AccumulatedUpTo(cs, i, binds)
    {
      binds := AddContribution(cs, i, binds);
      i := i + 1;
    }
    assert cs[..i] == cs;
  }

  /** In a list of distinct joints, a listed joint's weight is its entry's. */
  lemma {:induction false} WeightOfListed(binds: seq<Bind>, x: nat)
    requires DistinctJoints(binds) && x < |binds|
    ensures WeightOf(binds, binds[x].joint) == binds[x].weight
    decreases |binds|
  {
    var n := |binds|;
    var init := binds[..n - 1];
    if x < n - 1 {
      WeightOfListed(init, x);
      assert init[x] == binds[x];
    } else {
      WeightOfUnlisted(init, binds[x].joint);
    }
  }

  /** A joint without an entry has weight zero. */
  lemma {:induction false} WeightOfUnlisted(binds: seq<Bind>, name: string)
    requires forall x :: 0 <= x < |binds| ==> binds[x].joint != name
    ensures WeightOf(binds, name) == 0.0
    decreases |binds|
  {
    if binds != [] {
      WeightOfUnlisted(binds[..|binds| - 1], name);
    }
  }

  ghost predicate Lists(binds: seq<Bind>, name: string) {
    exists x :: 0 <= x < |binds| && binds[x].joint == name
  }

  /** Lists with the same joints and the same first joint, and distinct
      joints, have tails with the same joints. */
  lemma ListsTail(b1: seq<Bind>, b2: seq<Bind>)
    requires b1 != [] && b2 != [] && b1[0].joint == b2[0].joint
    requires DistinctJoints(b1) && DistinctJoints(b2)
    requires forall name :: Lists(b1, name) <==> Lists(b2, name)
    ensures forall name :: Lists(b1[1..], name) ==> Lists(b2[1..], name)
  {
    forall name | Lists(b1[1..], name) ensures Lists(b2[1..], name) {
      var x :| 0 <= x < |b1[1..]| && b1[1..][x].joint == name;
      assert Lists(b1, name) && b1[x + 1].joint == name;
      var z :| 0 <= z < |b2| && b2[z].joint == name;
      assert b2[1..][z - 1].joint == name;
    }
  }

  /** Two lists of distinct joints, each ordered strictly by the joints'
      first positive contributions and listing the same joints, list them in
      the same order. */
  lemma {:induction false} SameJointOrder(cs: seq<Contribution>, b1: seq<Bind>, b2: seq<Bind>)
    requires DistinctJoints(b1) && DistinctJoints(b2)
    requires forall x, y :: 0 <= x < y < |b1| ==> FirstPositive(cs, b1[x].joint) < FirstPositive(cs, b1[y].joint)
    requires forall x, y :: 0 <= x < y < |b2| ==> FirstPositive(cs, b2[x].joint) < FirstPositive(cs, b2[y].joint)
    requires forall name :: Lists(b1, name) <==> Lists(b2, name)
    ensures |b1| == |b2|
    ensures forall x :: 0 <= x < |b1| ==> b1[x].joint == b2[x].joint
    decreases |b1|
  {
    if b1 == [] {
      if b2 != [] {
        assert Lists(b2, b2[0].joint);
      }
    } else {
      assert Lists(b1, b1[0].joint);
      var y :| 0 <= y < |b2| && b2[y].joint == b1[0].joint;
      if y > 0 {
        assert Lists(b2, b2[0].joint);
        assert false;
      }
      ListsTail(b1, b2);
      ListsTail(b2, b1);
      SameJointOrder(cs, b1[1..], b2[1..]);
      forall x | 0 <= x < |b1| ensures b1[x].joint == b2[x].joint {
        if x > 0 { assert b1[1..][x - 1] == b1[x] && b2[1..][x - 1] == b2[x]; }
      }
    }
  }

  /** The contributions fix the accumulated bind list: its joints, their
      summed weights and their order. */
  lemma AccumulatedIsUnique(cs: seq<Contribution>, b1: seq<Bind>, b2: seq<Bind>)
    requires Accumulated(cs, b1) && Accumulated(cs, b2)
    ensures b1 == b2
  {
    forall name ensures Lists(b1, name) <==> Lists(b2, name) {
      if Lists(b1, name) && !Lists(b2, name) {
        var x :| 0 <= x < |b1| && b1[x].joint == name;
        WeightOfListed(b1, x);
        WeightOfUnlisted(b2, name);
      }
      if Lists(b2, name) && !Lists(b1, name) {
        var x :| 0 <= x < |b2| && b2[x].joint == name;
        WeightOfListed(b2, x);
        WeightOfUnlisted(b1, name);
      }
    }
    SameJointOrder(cs, b1, b2);
    forall x | 0 <= x < |b1| ensures b1[x] == b2[x] {
      WeightOfListed(b1, x);
      WeightOfListed(b2, x);
    }
  }

  /** bind_cmp: the heavier bind orders first. */
  predicate BindHeavier(lhs: Bind, rhs: Bind) {
    lhs.weight > rhs.weight
  }

  /** The placement std::nth_element(begin, begin + k, end, bind_cmp) promises:
      a permutation whose first k entries are each at least as heavy as every
      later entry. Which of several tied entries lands in front is unspecified;
      this model picks by partial selection. */
  method SelectHeaviest(bs: seq<Bind>, k: nat) returns (s: seq<Bind>)
    requires k <= |bs|
    ensures |s| == |bs|
    ensures multiset(s) == multiset(bs)
    ensures forall a, b :: 0 <= a < k <= b < |s| ==> !BindHeavier(s[b], s[a])
  {
    s := bs;
    var i := 0;
    while i < k
      invariant 0 <= i <= k
      invariant |s| == |bs| && multiset(s) == multiset(bs)
      invariant forall a, b :: 0 <= a < i <= b < |s| ==> s[a].weight >= s[b].weight
    {
      var m := i;
      var j := i + 1;
      while j < |s|
        invariant i <= m < |s| && i + 1 <= j <= |s|
        invariant forall b :: i <= b < j ==> s[m].weight >= s[b].weight
      {
        if BindHeavier(s[j], s[m]) {
          m := j;
        }
        j := j + 1;
      }
      s := Swap(s, i, m);
      i := i + 1;
    }
  }

  function Swap(s: seq<Bind>, i: nat, j: nat): (r: seq<Bind>)
    requires i < |s| && j < |s|
    ensures |r| == |s| && multiset(r) == multiset(s)
    ensures r[i] == s[j] && r[j] == s[i]
    ensures forall k :: 0 <= k < |s| && k != i && k != j ==> r[k] == s[k]
  {
    s[i := s[j]][j := s[i]]
  }

  /** Each weight divided by c. */
  function Scaled(binds: seq<Bind>, c: real): (r: seq<Bind>)
    requires c != 0.0
    ensures |r| == |binds|
    ensures forall i :: 0 <= i < |binds| ==> r[i] == Bind(binds[i].joint, binds[i].weight / c)
  {
    if binds == [] then [] else Scaled(binds[..|binds| - 1], c) + [Bind(binds[|binds| - 1].joint, binds[|binds| - 1].weight / c)]
  }

  lemma {:induction false} TotalScaled(binds: seq<Bind>, c: real)
    requires c != 0.0
    ensures Total(Scaled(binds, c)) == Total(binds) / c
    decreases |binds|
  {
    if binds != [] {
      var n := |binds|;
      var init := binds[..n - 1];
      TotalScaled(init, c);
      var sc := Scaled(binds, c);
      assert sc[..n - 1] == Scaled(init, c);
      assert Total(sc) == Total(init) / c + binds[n - 1].weight / c;
      DivDistributes(Total(init), binds[n - 1].weight, c);
    }
  }

  /** Renormalising by the total makes the weights sum to one. */
  lemma NormalisedTotal(binds: seq<Bind>)
    requires Total(binds) != 0.0
    ensures Total(Scaled(binds, Total(binds))) == 1.0
  {
    var t := Total(binds);
    TotalScaled(binds, t);
    DivSelf(t);
  }

  lemma DivDistributes(a: real, b: real, c: real)
    requires c != 0.0
    ensures a / c + b / c == (a + b) / c
  {
  }

  lemma DivSelf(t: real)
    requires t != 0.0
    ensures t / t == 1.0
  {
  }

  lemma {:induction false} TotalPositive(binds: seq<Bind>)
    requires AllPositive(binds) && binds != []
    ensures Total(binds) > 0.0
    decreases |binds|
  {
    if |binds| > 1 {
      TotalPositive(binds[..|binds| - 1]);
    }
  }

  /** The bind list the exporter uses when a position has no influence. */
  function WithFallback(binds: seq<Bind>, fallback: string): (r: seq<Bind>)
    ensures binds == [] ==> r == [Bind(fallback, 1.0)]
    ensures binds != [] ==> r == binds
  {
    if binds == [] then [Bind(fallback, 1.0)] else binds
  }

  /** The renormalisation after truncation: the sum loop, the check that the
      sum is positive, and the division loop. */
  method Renormalise(kept: seq<Bind>) returns (r: seq<Bind>)
    requires kept != [] && AllPositive(kept)
    ensures Total(kept) > 0.0
    ensures r == Scaled(kept, Total(kept))
  {
    var sum := 0.0;
    var j := 0;
    while j < |kept|
      invariant 0 <= j <= |kept|
      invariant sum == Total(kept[..j])
    {
      assert kept[..j + 1][..j] == kept[..j];
      sum := sum + kept[j].weight;
      j := j + 1;
    }
    assert kept[..j] == kept;
    TotalPositive(kept);
    r := kept;
    j := 0;
    while j < |kept|
      invariant 0 <= j <= |kept| == |r|
      invariant forall i :: 0 <= i < j ==> r[i] == Bind(kept[i].joint, kept[i].weight / sum)
      invariant forall i :: j <= i < |kept| ==> r[i] == kept[i]
    {
      r := r[j := Bind(r[j].joint, r[j].weight / sum)];
      j := j + 1;
    }
  }

  /** The padding loop: zero-weight root entries up to the limit. */
  method PadWithRoot(binds: seq<Bind>, rootName: string, limit: nat) returns (r: seq<Bind>)
    requires |binds| <= limit
    ensures |r| == limit
    ensures r[..|binds|] == binds
    ensures forall i :: |binds| <= i < limit ==> r[i] == Bind(rootName, 0.0)
  {
    r := binds;
    var j := |binds|;
    while j < limit
      invariant |binds| <= j <= limit && |r| == j
      invariant r[..|binds|] == binds
      invariant forall i :: |binds| <= i < j ==> r[i] == Bind(rootName, 0.0)
    {
      r := r + [Bind(rootName, 0.0)];
      j := j + 1;
    }
  }

  /** r is binds cut to limit influences: padded with zero-weight root
      entries when they fit, otherwise the limit heaviest, renormalised. */
  ghost predicate Limited(binds: seq<Bind>, fallback: string, rootName: string, limit: nat, r: seq<Bind>) {
    && |r| == limit
    && (|WithFallback(binds, fallback)| <= limit ==>
          && r[..|WithFallback(binds, fallback)|] == WithFallback(binds, fallback)
          && forall i :: |WithFallback(binds, fallback)| <= i < limit ==> r[i] == Bind(rootName, 0.0))
    && (|WithFallback(binds, fallback)| > limit ==>
          exists kept: seq<Bind>, dropped: seq<Bind> ::
            && |kept| == limit
            && multiset(kept + dropped) == multiset(binds)
            && (forall a, d :: 0 <= a < |kept| && 0 <= d < |dropped| ==> kept[a].weight >= dropped[d].weight)
            && Total(kept) > 0.0
            && r == Scaled(kept, Total(kept)))
  }

  /** One position's bind list: empty when no influences are kept, otherwise
      the position's contributions accumulated and then limited. */
  ghost predicate LimitedBinds(cs: seq<Contribution>, fallback: string, rootName: string, limit: nat, b: seq<Bind>) {
    if limit == 0 then b == []
    else exists acc :: Accumulated(cs, acc) && Limited(acc, fallback, rootName, limit, b)
  }

  /** A truncating limit: the kept entries, no lighter than the dropped ones,
      divided by their sum. */
  lemma LimitedByTruncation(binds: seq<Bind>, fallback: string, rootName: string, limit: nat,
                            kept: seq<Bind>, dropped: seq<Bind>, r: seq<Bind>)
    requires |binds| > limit && |kept| == limit
    requires multiset(kept + dropped) == multiset(binds)
    requires forall a, d :: 0 <= a < |kept| && 0 <= d < |dropped| ==> kept[a].weight >= dropped[d].weight
    requires Total(kept) > 0.0 && r == Scaled(kept, Total(kept))
    ensures Limited(binds, fallback, rootName, limit, r)
  {
    assert WithFallback(binds, fallback) == binds;
  }

  /** A list that fits: kept as it is, then padded with root entries. */
  lemma LimitedByPadding(binds: seq<Bind>, fallback: string, rootName: string, limit: nat, r: seq<Bind>)
    requires |WithFallback(binds, fallback)| <= limit && |r| == limit
    requires r[..|WithFallback(binds, fallback)|] == WithFallback(binds, fallback)
    requires forall i :: |WithFallback(binds, fallback)| <= i < limit ==> r[i] == Bind(rootName, 0.0)
    ensures Limited(binds, fallback, rootName, limit, r)
  {
  }

  /** The influence limit of one position's bind list (joints_per_ver_ > 0):
      an empty list gets the fallback joint with weight 1; a list longer than
      the limit keeps its heaviest entries, renormalised by their sum; a
      shorter one is padded with zero-weight root entries. */
  method LimitInfluences(binds: seq<Bind>, fallback: string, rootName: string, limit: nat) returns (r: seq<Bind>)
    requires limit > 0
    requires AllPositive(binds)
    ensures Limited(binds, fallback, rootName, limit, r)
  {
    var b0 := binds;
    if |b0| == 0 {
      b0 := [Bind(fallback, 1.0)];
    }
    assert b0 == WithFallback(binds, fallback);
    if |b0| > limit {
      var s := SelectHeaviest(b0, limit);
      ghost var kept, dropped := s[..limit], s[limit..];
      assert s == kept + dropped;
      forall i | 0 <= i < |kept| ensures kept[i].weight > 0.0 {
        assert kept[i] == s[i] && s[i] in multiset(binds);
      }
      r := Renormalise(s[..limit]);
      LimitedByTruncation(binds, fallback, rootName, limit, kept, dropped, r);
    } else {
      r := PadWithRoot(b0, rootName, limit);
      LimitedByPadding(binds, fallback, rootName, limit, r);
    }
  }

  /** After a truncating limit the kept weights sum to one. */
  lemma TruncatedWeightsSumToOne(kept: seq<Bind>)
    requires kept != [] && AllPositive(kept)
    ensures Total(kept) > 0.0
    ensures Total(Scaled(kept, Total(kept))) == 1.0
  {
    TotalPositive(kept);
    NormalisedTotal(kept);
  }
}
