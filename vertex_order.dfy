/**
  The orderings the exporter relies on: std::vector<int>'s lexicographic
  operator<, the operator< of vertex_index_t (mesh_extractor.cpp), and
  std::string's operator< that orders the keys of the joint map.
  Each is proved to be a strict total order, so equivalence under it
  (neither side smaller) is plain equality.
 */
module VertexOrder {
  import opened MeshTypes

  /** Lexicographic order on int sequences; a proper prefix is smaller. */
  function SeqLess(a: seq<int>, b: seq<int>): bool
    decreases |a|
  {
    if |b| == 0 then false
    else if |a| == 0 then true
    else if a[0] < b[0] then true
    else if a[0] > b[0] then false
    else SeqLess(a[1..], b[1..])
  }

  /** operator< on vertex_index_t: position, then UV indices, then cluster. */
  function KeyLess(lhs: VertexKey, rhs: VertexKey): bool {
    if lhs.pos < rhs.pos then true
    else if lhs.pos > rhs.pos then false
    else if SeqLess(lhs.tex, rhs.tex) then true
    else if SeqLess(rhs.tex, lhs.tex) then false
    else lhs.sm < rhs.sm
  }

  lemma {:induction false} SeqLessIrreflexive(a: seq<int>)
    ensures !SeqLess(a, a)
    decreases |a|
  {
    if |a| > 0 {
      SeqLessIrreflexive(a[1..]);
    }
  }

  lemma {:induction false} SeqLessTransitive(a: seq<int>, b: seq<int>, c: seq<int>)
    requires SeqLess(a, b) && SeqLess(b, c)
    ensures SeqLess(a, c)
    decreases |a|
  {
    if |a| > 0 && a[0] == b[0] && b[0] == c[0] {
      SeqLessTransitive(a[1..], b[1..], c[1..]);
    }
  }

  lemma {:induction false} SeqLessTotal(a: seq<int>, b: seq<int>)
    ensures a == b || SeqLess(a, b) || SeqLess(b, a)
    decreases |a|
  {
    if |a| > 0 && |b| > 0 && a[0] == b[0] {
      SeqLessTotal(a[1..], b[1..]);
      if a[1..] == b[1..] {
        assert a == [a[0]] + a[1..] && b == [b[0]] + b[1..];
      }
    }
  }

  lemma SeqLessAsymmetric(a: seq<int>, b: seq<int>)
    requires SeqLess(a, b)
    ensures !SeqLess(b, a)
  {
    if SeqLess(b, a) {
      SeqLessTransitive(a, b, a);
      SeqLessIrreflexive(a);
    }
  }

  lemma KeyLessIrreflexive(k: VertexKey)
    ensures !KeyLess(k, k)
  {
    SeqLessIrreflexive(k.tex);
  }

  lemma KeyLessTransitive(a: VertexKey, b: VertexKey, c: VertexKey)
    requires KeyLess(a, b) && KeyLess(b, c)
    ensures KeyLess(a, c)
  {
    if a.pos == b.pos == c.pos {
      if SeqLess(a.tex, b.tex) && SeqLess(b.tex, c.tex) {
        SeqLessTransitive(a.tex, b.tex, c.tex);
      } else if SeqLess(a.tex, b.tex) {
        SeqLessAsymmetric(a.tex, b.tex);
        SeqLessTotal(b.tex, c.tex);
      } else if SeqLess(b.tex, c.tex) {
        SeqLessTotal(a.tex, b.tex);
        SeqLessAsymmetric(b.tex, c.tex);
      } else {
        SeqLessTotal(a.tex, b.tex);
        SeqLessTotal(b.tex, c.tex);
      }
    }
  }

  /** Two keys are equivalent under operator< exactly when they are equal,
      so a std::set of keys holds one entry per distinct key. */
  lemma KeyEquivalenceIsEquality(a: VertexKey, b: VertexKey)
    ensures (!KeyLess(a, b) && !KeyLess(b, a)) <==> a == b
  {
    if a == b {
      KeyLessIrreflexive(a);
    } else {
      SeqLessTotal(a.tex, b.tex);
      if a.tex != b.tex && SeqLess(a.tex, b.tex) {
        SeqLessAsymmetric(a.tex, b.tex);
      }
      if a.tex != b.tex && SeqLess(b.tex, a.tex) {
        SeqLessAsymmetric(b.tex, a.tex);
      }
    }
  }

  lemma KeyLessAsymmetric(a: VertexKey, b: VertexKey)
    requires KeyLess(a, b)
    ensures !KeyLess(b, a)
  {
    if KeyLess(b, a) {
      KeyLessTransitive(a, b, a);
      KeyLessIrreflexive(a);
    }
  }

  /** The character codes of a string, as std::string compares them. */
  function Codes(s: string): (r: seq<int>)
    ensures |r| == |s|
    ensures forall i :: 0 <= i < |s| ==> r[i] == s[i] as int
  {
    seq(|s|, i requires 0 <= i < |s| => s[i] as int)
  }

  /** std::string's operator<, the order of the keys of the joint map. */
  function StringLess(a: string, b: string): bool {
    SeqLess(Codes(a), Codes(b))
  }

  lemma CodesInjective(a: string, b: string)
    requires Codes(a) == Codes(b)
    ensures a == b
  {
    assert |a| == |b|;
    forall i | 0 <= i < |a| ensures a[i] == b[i] {
      assert Codes(a)[i] == Codes(b)[i];
    }
  }

  lemma StringLessIsStrictTotal(a: string, b: string, c: string)
    ensures !StringLess(a, a)
    ensures StringLess(a, b) && StringLess(b, c) ==> StringLess(a, c)
    ensures a == b || StringLess(a, b) || StringLess(b, a)
  {
    SeqLessIrreflexive(Codes(a));
    if StringLess(a, b) && StringLess(b, c) {
      SeqLessTransitive(Codes(a), Codes(b), Codes(c));
    }
    SeqLessTotal(Codes(a), Codes(b));
    if Codes(a) == Codes(b) {
      CodesInjective(a, b);
    }
  }

  /** The smallest name of a non-empty finite set of names: the next key a
      walk over a std::map<std::string, _> visits. */
  lemma {:induction false} SmallestNameExists(s: set<string>)
    requires s != {}
    ensures exists m :: m in s && forall x :: x in s ==> !StringLess(x, m)
    decreases |s|
  {
    var x :| x in s;
    if s == {x} {
      StringLessIsStrictTotal(x, x, x);
      assert forall y :: y in s ==> y == x;
    } else {
      SmallestNameExists(s - {x});
      var m :| m in s - {x} && forall y :: y in s - {x} ==> !StringLess(y, m);
      if StringLess(x, m) {
        forall y | y in s ensures !StringLess(y, x) {
          if y == x {
            StringLessIsStrictTotal(x, x, x);
          } else if StringLess(y, x) {
            StringLessIsStrictTotal(y, x, m);
          }
        }
      } else {
        assert forall y :: y in s ==> y == x || y in s - {x};
      }
    }
  }
}
