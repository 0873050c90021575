// The abstract qualifier lattice every checker component is stated over.
//
// A type-system checker organises its qualifiers into one or more
// hierarchies; every qualifier belongs to exactly one hierarchy (its "top"),
// and each hierarchy is a lattice under isSubtype with least upper bounds
// and greatest lower bounds. The graph-based hierarchy that implements this
// is not part of this model: it is a parameter, constrained by Valid().
//
// A set of annotations on one type carries at most one qualifier per
// hierarchy, so it is modelled as a map from hierarchy to qualifier.

module Lattice {

  datatype Hierarchy<H(!new), !Q(!new)> = Hierarchy(
    hierarchyOf: Q -> H,
    isSubtype: (Q, Q) -> bool,
    lub: (Q, Q) -> Q,
    glb: (Q, Q) -> Q)
  {
    /** The lattice laws the qualifier hierarchy is assumed to obey. */
    ghost predicate Valid()
    {
      && (forall a :: isSubtype(a, a))
      && (forall a, b :: isSubtype(a, b) ==> hierarchyOf(a) == hierarchyOf(b))
      && (forall a, b, c :: isSubtype(a, b) && isSubtype(b, c) ==> isSubtype(a, c))
      && (forall a, b :: isSubtype(a, b) && isSubtype(b, a) ==> a == b)
      && (forall a, b :: hierarchyOf(a) == hierarchyOf(b) ==> isSubtype(a, lub(a, b)) && isSubtype(b, lub(a, b)))
      && (forall a, b, c :: isSubtype(a, c) && isSubtype(b, c) ==> isSubtype(lub(a, b), c))
      && (forall a, b :: hierarchyOf(a) == hierarchyOf(b) ==> isSubtype(glb(a, b), a) && isSubtype(glb(a, b), b))
      && (forall a, b, c :: isSubtype(c, a) && isSubtype(c, b) ==> isSubtype(c, glb(a, b)))
    }

    /** The same hierarchy read upside down: subtyping reversed, lub and glb swapped. */
    function Dual(): (d: Hierarchy<H, Q>)
      ensures d.hierarchyOf == hierarchyOf && d.lub == glb && d.glb == lub
      ensures forall a, b :: d.isSubtype(a, b) == isSubtype(b, a)
    {
      Hierarchy(hierarchyOf, (a, b) => isSubtype(b, a), glb, lub)
    }
  }

  lemma DualValid<H(!new), Q(!new)>(L: Hierarchy<H, Q>)
    requires L.Valid()
    ensures L.Dual().Valid()
  {
  }

  /** lub(a, b) is the supremum: it lies below c exactly when a and b do. */
  lemma LubSupremum<H(!new), Q(!new)>(L: Hierarchy<H, Q>, a: Q, b: Q, c: Q)
    requires L.Valid() && L.hierarchyOf(a) == L.hierarchyOf(b)
    ensures L.hierarchyOf(L.lub(a, b)) == L.hierarchyOf(a)
    ensures L.isSubtype(L.lub(a, b), c) <==> L.isSubtype(a, c) && L.isSubtype(b, c)
  {
    if L.isSubtype(L.lub(a, b), c) {
      assert L.isSubtype(a, L.lub(a, b));
      assert L.isSubtype(b, L.lub(a, b));
    }
  }

  lemma LubCommutative<H(!new), Q(!new)>(L: Hierarchy<H, Q>, a: Q, b: Q)
    requires L.Valid() && L.hierarchyOf(a) == L.hierarchyOf(b)
    ensures L.lub(a, b) == L.lub(b, a)
  {
    var x, y := L.lub(a, b), L.lub(b, a);
    assert L.isSubtype(a, y) && L.isSubtype(b, y);
    assert L.isSubtype(x, y);
    assert L.isSubtype(a, x) && L.isSubtype(b, x);
    assert L.isSubtype(y, x);
  }

  lemma LubIdempotent<H(!new), Q(!new)>(L: Hierarchy<H, Q>, a: Q)
    requires L.Valid()
    ensures L.lub(a, a) == a
  {
    assert L.isSubtype(a, a);
    assert L.isSubtype(a, L.lub(a, a));
  }

  lemma LubAssociative<H(!new), Q(!new)>(L: Hierarchy<H, Q>, a: Q, b: Q, c: Q)
    requires L.Valid() && L.hierarchyOf(a) == L.hierarchyOf(b) == L.hierarchyOf(c)
    ensures L.lub(L.lub(a, b), c) == L.lub(a, L.lub(b, c))
  {
    var ab, bc := L.lub(a, b), L.lub(b, c);
    LubSupremum(L, a, b, c);
    LubSupremum(L, b, c, a);
    var l, r := L.lub(ab, c), L.lub(a, bc);
    LubSupremum(L, ab, c, r);
    LubSupremum(L, a, bc, l);
    LubSupremum(L, a, b, r);
    LubSupremum(L, b, c, l);
    LubSupremum(L, ab, c, l);
    LubSupremum(L, a, bc, r);
  }

  lemma GlbCommutative<H(!new), Q(!new)>(L: Hierarchy<H, Q>, a: Q, b: Q)
    requires L.Valid() && L.hierarchyOf(a) == L.hierarchyOf(b)
    ensures L.glb(a, b) == L.glb(b, a)
  {
    DualValid(L);
    LubCommutative(L.Dual(), a, b);
  }

  // ---------------------------------------------------------------------
  // Annotation sets: at most one qualifier per hierarchy.

  type Annos<H(!new), Q(!new)> = map<H, Q>

  /** Every entry sits in the hierarchy it is filed under. */
  ghost predicate WellFormed<H(!new), Q(!new)>(L: Hierarchy<H, Q>, m: Annos<H, Q>)
  {
    forall h :: h in m ==> L.hierarchyOf(m[h]) == h
  }

  /**
   * leastUpperBounds of two annotation sets: the lub per hierarchy, for the
   * hierarchies both sets are annotated in.
   */
  function Lubs<H(!new), Q(!new)>(L: Hierarchy<H, Q>, a: Annos<H, Q>, b: Annos<H, Q>): (r: Annos<H, Q>)
    ensures r.Keys == a.Keys * b.Keys
  {
    map h | h in a.Keys * b.Keys :: L.lub(a[h], b[h])
  }

  /** greatestLowerBounds: the dual of Lubs. */
  function Glbs<H(!new), Q(!new)>(L: Hierarchy<H, Q>, a: Annos<H, Q>, b: Annos<H, Q>): (r: Annos<H, Q>)
    ensures r.Keys == a.Keys * b.Keys
  {
    Lubs(L.Dual(), a, b)
  }

  /** addMissingAnnotations: keep every qualifier t has, add p's for the hierarchies t lacks. */
  function AddMissing<H(!new), Q(!new)>(t: Annos<H, Q>, p: Annos<H, Q>): (r: Annos<H, Q>)
    ensures r.Keys == t.Keys + p.Keys
    ensures forall h :: h in t ==> r[h] == t[h]
    ensures forall h :: h in p && h !in t ==> r[h] == p[h]
  {
    map h | h in t.Keys + p.Keys :: if h in t then t[h] else p[h]
  }

  /** addAnnotations: each given qualifier replaces the one in its hierarchy. */
  function AddAll<H(!new), Q(!new)>(t: Annos<H, Q>, p: Annos<H, Q>): (r: Annos<H, Q>)
    ensures r.Keys == t.Keys + p.Keys
    ensures forall h :: h in p ==> r[h] == p[h]
    ensures forall h :: h in t && h !in p ==> r[h] == t[h]
  {
    t + p
  }

  lemma AddMissingIdempotent<H(!new), Q(!new)>(t: Annos<H, Q>, p: Annos<H, Q>)
    ensures AddMissing(AddMissing(t, p), p) == AddMissing(t, p)
  {
  }

  lemma LubsWellFormed<H(!new), Q(!new)>(L: Hierarchy<H, Q>, a: Annos<H, Q>, b: Annos<H, Q>)
    requires L.Valid() && WellFormed(L, a) && WellFormed(L, b)
    ensures WellFormed(L, Lubs(L, a, b))
  {
    forall h | h in Lubs(L, a, b) ensures L.hierarchyOf(Lubs(L, a, b)[h]) == h {
      LubSupremum(L, a[h], b[h], a[h]);
    }
  }

  lemma LubsCommutative<H(!new), Q(!new)>(L: Hierarchy<H, Q>, a: Annos<H, Q>, b: Annos<H, Q>)
    requires L.Valid() && WellFormed(L, a) && WellFormed(L, b)
    ensures Lubs(L, a, b) == Lubs(L, b, a)
  {
    forall h | h in a.Keys * b.Keys ensures L.lub(a[h], b[h]) == L.lub(b[h], a[h]) {
      LubCommutative(L, a[h], b[h]);
    }
  }

  lemma LubsIdempotent<H(!new), Q(!new)>(L: Hierarchy<H, Q>, a: Annos<H, Q>)
    requires L.Valid()
    ensures Lubs(L, a, a) == a
  {
    forall h | h in a ensures L.lub(a[h], a[h]) == a[h] {
      LubIdempotent(L, a[h]);
    }
  }

  lemma LubsAssociative<H(!new), Q(!new)>(L: Hierarchy<H, Q>, a: Annos<H, Q>, b: Annos<H, Q>, c: Annos<H, Q>)
    requires L.Valid() && WellFormed(L, a) && WellFormed(L, b) && WellFormed(L, c)
    ensures Lubs(L, Lubs(L, a, b), c) == Lubs(L, a, Lubs(L, b, c))
  {
    forall h | h in a.Keys * b.Keys * c.Keys
      ensures L.lub(L.lub(a[h], b[h]), c[h]) == L.lub(a[h], L.lub(b[h], c[h]))
    {
      LubAssociative(L, a[h], b[h], c[h]);
    }
  }

  // ---------------------------------------------------------------------
  // Folding lub / glb over a non-empty sequence of annotation sets, first to last.

  function LubFold<H(!new), Q(!new)>(L: Hierarchy<H, Q>, s: seq<Annos<H, Q>>): (r: Annos<H, Q>)
    requires |s| > 0
    ensures forall h :: h in r <==> (forall i :: 0 <= i < |s| ==> h in s[i])
    decreases |s|
  {
    if |s| == 1 then s[0]
    else
      var init := s[..|s| - 1];
      assert forall i :: 0 <= i < |init| ==> init[i] == s[i];
      Lubs(L, LubFold(L, init), s[|s| - 1])
  }

  function GlbFold<H(!new), Q(!new)>(L: Hierarchy<H, Q>, s: seq<Annos<H, Q>>): (r: Annos<H, Q>)
    requires |s| > 0
    ensures forall h :: h in r <==> (forall i :: 0 <= i < |s| ==> h in s[i])
  {
    LubFold(L.Dual(), s)
  }

  /** The lub-fold lies above every element, in every hierarchy they share. */
  lemma {:induction false} LubFoldUpper<H(!new), Q(!new)>(L: Hierarchy<H, Q>, s: seq<Annos<H, Q>>, h: H)
    requires L.Valid() && |s| > 0
    requires forall i :: 0 <= i < |s| ==> WellFormed(L, s[i])
    requires h in LubFold(L, s)
    ensures L.hierarchyOf(LubFold(L, s)[h]) == h
    ensures forall i :: 0 <= i < |s| ==> L.isSubtype(s[i][h], LubFold(L, s)[h])
    decreases |s|
  {
    if |s| > 1 {
      var init, last := s[..|s| - 1], s[|s| - 1];
      var f := LubFold(L, init);
      LubFoldUpper(L, init, h);
      var r := L.lub(f[h], last[h]);
      LubSupremum(L, f[h], last[h], r);
      forall i | 0 <= i < |s| ensures L.isSubtype(s[i][h], r) {
        if i < |s| - 1 {
          assert s[i] == init[i];
        }
      }
    }
  }

  /** The lub-fold lies below every common upper bound of the elements. */
  lemma {:induction false} LubFoldLeast<H(!new), Q(!new)>(L: Hierarchy<H, Q>, s: seq<Annos<H, Q>>, h: H, c: Q)
    requires L.Valid() && |s| > 0
    requires forall i :: 0 <= i < |s| ==> WellFormed(L, s[i])
    requires h in LubFold(L, s)
    requires forall i :: 0 <= i < |s| ==> L.isSubtype(s[i][h], c)
    ensures L.isSubtype(LubFold(L, s)[h], c)
    decreases |s|
  {
    if |s| > 1 {
      var init, last := s[..|s| - 1], s[|s| - 1];
      var f := LubFold(L, init);
      assert forall i :: 0 <= i < |init| ==> init[i] == s[i];
      LubFoldLeast(L, init, h, c);
      LubFoldUpper(L, init, h);
      LubSupremum(L, f[h], last[h], c);
    }
  }

  /**
   * The lub-fold is the least upper bound of all its elements in every
   * hierarchy they share: it lies below c exactly when every element does.
   */
  lemma LubFoldSupremum<H(!new), Q(!new)>(L: Hierarchy<H, Q>, s: seq<Annos<H, Q>>, h: H, c: Q)
    requires L.Valid() && |s| > 0
    requires forall i :: 0 <= i < |s| ==> WellFormed(L, s[i])
    requires h in LubFold(L, s)
    ensures L.hierarchyOf(LubFold(L, s)[h]) == h
    ensures forall i :: 0 <= i < |s| ==> L.isSubtype(s[i][h], LubFold(L, s)[h])
    ensures L.isSubtype(LubFold(L, s)[h], c) <==> (forall i :: 0 <= i < |s| ==> L.isSubtype(s[i][h], c))
  {
    LubFoldUpper(L, s, h);
    if forall i :: 0 <= i < |s| ==> L.isSubtype(s[i][h], c) {
      LubFoldLeast(L, s, h, c);
    }
  }

  /** The glb-fold is the greatest lower bound of its elements in every shared hierarchy. */
  lemma GlbFoldInfimum<H(!new), Q(!new)>(L: Hierarchy<H, Q>, s: seq<Annos<H, Q>>, h: H, c: Q)
    requires L.Valid() && |s| > 0
    requires forall i :: 0 <= i < |s| ==> WellFormed(L, s[i])
    requires h in GlbFold(L, s)
    ensures L.hierarchyOf(GlbFold(L, s)[h]) == h
    ensures forall i :: 0 <= i < |s| ==> L.isSubtype(GlbFold(L, s)[h], s[i][h])
    ensures L.isSubtype(c, GlbFold(L, s)[h]) <==> (forall i :: 0 <= i < |s| ==> L.isSubtype(c, s[i][h]))
  {
    DualValid(L);
    LubFoldSupremum(L.Dual(), s, h, c);
  }
}
