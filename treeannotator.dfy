// Implicit qualifier defaulting by tree. A TreeAnnotator holds three
// registries, each mapping to a set of qualifiers (at most one per
// hierarchy) to add to the type of a tree:
//   treeKinds       by the tree's kind (NULL_LITERAL, NEW_ARRAY, ...);
//   treeClasses     by the tree's implementation class or one of its interfaces;
//   stringPatterns  by a regular expression a string literal must match.
// Some visitors also compute qualifiers from the operands: a binary or
// compound-assignment tree gets the lub of its operands, an array creation
// the lub of its initializers or the qualifiers of its assignment context.
// Every visitor ends in defaultAction (the generic visitor's fallback), and
// every defaulting step only fills hierarchies in which the type is not yet
// annotated, except a string-pattern match, which adds its qualifiers outright.
//
// The types of sub-expressions are computed by the type factory and are
// inputs here. Regular-expression matching is the parameter `matches`; the
// one concrete pattern of this model is the fully-qualified-name recogniser.

module TreeAnnotation {
  import opened Lattice

  datatype Option<T> = None | Some(value: T)

  datatype TreeKind =
    | NullLiteral | StringLiteral | IntLiteral | NewArray | Binary | CompoundAssignment
    | Unary | TypeCast | Identifier | OtherKind(name: string)

  /** A tree, as defaulting sees it: its kind, its implementation class and a literal's value. */
  datatype Tree = Tree(kind: TreeKind, treeClass: string, value: string)

  datatype TypeKind = DeclaredType | ArrayType | TypeVariable | PrimitiveType | OtherType

  /** A mutable annotated type: its annotations, and an array's component type. */
  class AType<H(==, !new), Q(==, !new)> {
    var kind: TypeKind
    var annos: Annos<H, Q>
    var component: AType?<H, Q>

    constructor (kind: TypeKind, annos: Annos<H, Q>, component: AType?<H, Q>)
      ensures this.kind == kind && this.annos == annos && this.component == component
    {
      this.kind := kind;
      this.annos := annos;
      this.component := component;
    }
  }

  // ---------------------------------------------------------------------
  // Registry updates.

  /**
   * updateMappingToMutableSet: add q to the set registered under key, unless
   * that set already holds a different qualifier of q's hierarchy.
   */
  function UpdateMapping<H(==, !new), Q(==, !new), K(==)>(L: Hierarchy<H, Q>, m: map<K, Annos<H, Q>>, key: K, q: Q)
    : (r: Option<map<K, Annos<H, Q>>>)
    ensures r.None? <==> key in m && L.hierarchyOf(q) in m[key] && m[key][L.hierarchyOf(q)] != q
    ensures r.Some? ==> r.value.Keys == m.Keys + {key}
    ensures r.Some? ==> key in r.value && L.hierarchyOf(q) in r.value[key] && r.value[key][L.hierarchyOf(q)] == q
    ensures r.Some? ==> forall k :: k in m && k != key ==> r.value[k] == m[k]
    ensures r.Some? && key in m ==> r.value[key].Keys == m[key].Keys + {L.hierarchyOf(q)}
  {
    var h := L.hierarchyOf(q);
    if key in m && h in m[key] && m[key][h] != q then None
    else Some(m[key := (if key in m then m[key] else map[])[h := q]])
  }

  // ---------------------------------------------------------------------
  // defaultAction as functions of the annotations and the class registry.

  /** The interfaces loop: each mapped interface fills missing qualifiers and is memoized for the class. */
  function InterfaceDefaults<H(==, !new), Q(==, !new)>(annos: Annos<H, Q>, classes: map<string, Annos<H, Q>>, c: string, ifaces: seq<string>)
    : (Annos<H, Q>, map<string, Annos<H, Q>>)
  {
    if ifaces == [] then (annos, classes)
    else
      var prev := InterfaceDefaults(annos, classes, c, ifaces[..|ifaces| - 1]);
      var i := ifaces[|ifaces| - 1];
      if i in prev.1 then (AddMissing(prev.0, prev.1[i]), prev.1[c := prev.1[i]]) else prev
  }

  /** defaultAction on a tree and a type: the new annotations and the new class registry. */
  function Defaulted<H(==, !new), Q(==, !new)>(kinds: map<TreeKind, Annos<H, Q>>, classes: map<string, Annos<H, Q>>,
                                               interfacesOf: string -> seq<string>, tree: Tree, annos: Annos<H, Q>)
    : (Annos<H, Q>, map<string, Annos<H, Q>>)
  {
    if tree.kind in kinds then (AddMissing(annos, kinds[tree.kind]), classes)
    else if |classes| == 0 then (annos, classes)
    else
      var c := tree.treeClass;
      InterfaceDefaults(if c in classes then AddMissing(annos, classes[c]) else annos, classes, c, interfacesOf(c))
  }

  /** A kind mapping takes precedence: the class registry is then neither consulted nor changed. */
  lemma KindTakesPrecedence<H(!new), Q(!new)>(kinds: map<TreeKind, Annos<H, Q>>, classes: map<string, Annos<H, Q>>,
                                              interfacesOf: string -> seq<string>, tree: Tree, annos: Annos<H, Q>)
    requires tree.kind in kinds
    ensures Defaulted(kinds, classes, interfacesOf, tree, annos) == (AddMissing(annos, kinds[tree.kind]), classes)
  {
  }

  lemma {:induction false} InterfaceDefaultsKeep<H(!new), Q(!new)>(annos: Annos<H, Q>, classes: map<string, Annos<H, Q>>,
                                                                    c: string, ifaces: seq<string>)
    requires c !in ifaces
    ensures var r := InterfaceDefaults(annos, classes, c, ifaces);
            && (forall h :: h in annos ==> h in r.0 && r.0[h] == annos[h])
            && (forall k :: k != c ==> (k in r.1 <==> k in classes) && (k in classes ==> r.1[k] == classes[k]))
            && (c in r.1 <==> c in classes || exists j :: 0 <= j < |ifaces| && ifaces[j] in classes)
    decreases |ifaces|
  {
    if ifaces != [] {
      var init := ifaces[..|ifaces| - 1];
      InterfaceDefaultsKeep(annos, classes, c, init);
      forall j | 0 <= j < |init| ensures init[j] == ifaces[j] { }
    }
  }

  /**
   * defaultAction only fills missing qualifiers; it changes the class
   * registry only by memoizing, for the tree's class, a set found through one
   * of its interfaces.
   */
  lemma DefaultedFillsOnlyMissing<H(!new), Q(!new)>(kinds: map<TreeKind, Annos<H, Q>>, classes: map<string, Annos<H, Q>>,
                                                    interfacesOf: string -> seq<string>, tree: Tree, annos: Annos<H, Q>)
    requires tree.treeClass !in interfacesOf(tree.treeClass)
    ensures var r := Defaulted(kinds, classes, interfacesOf, tree, annos);
            && (forall h :: h in annos ==> h in r.0 && r.0[h] == annos[h])
            && (forall k :: k != tree.treeClass ==> (k in r.1 <==> k in classes) && (k in classes ==> r.1[k] == classes[k]))
  {
    if tree.kind !in kinds && |classes| != 0 {
      var c := tree.treeClass;
      InterfaceDefaultsKeep(if c in classes then AddMissing(annos, classes[c]) else annos, classes, c, interfacesOf(c));
    }
  }

  /** A class reached through a mapped interface is mapped itself afterwards (memoization). */
  lemma DefaultedMemoizes<H(!new), Q(!new)>(kinds: map<TreeKind, Annos<H, Q>>, classes: map<string, Annos<H, Q>>,
                                            interfacesOf: string -> seq<string>, tree: Tree, annos: Annos<H, Q>, j: nat)
    requires tree.treeClass !in interfacesOf(tree.treeClass)
    requires tree.kind !in kinds && j < |interfacesOf(tree.treeClass)| && interfacesOf(tree.treeClass)[j] in classes
    ensures tree.treeClass in Defaulted(kinds, classes, interfacesOf, tree, annos).1
  {
    var c := tree.treeClass;
    InterfaceDefaultsKeep(if c in classes then AddMissing(annos, classes[c]) else annos, classes, c, interfacesOf(c));
  }

  // ---------------------------------------------------------------------
  // String patterns.

  /** The qualifier sets of the patterns a string matches, in registry order. */
  function MatchingSets<H(==, !new), Q(==, !new)>(pats: seq<(string, Annos<H, Q>)>, matches: (string, string) -> bool, s: string)
    : (r: seq<Annos<H, Q>>)
    ensures |r| == 0 <==> forall i :: 0 <= i < |pats| ==> !matches(pats[i].0, s)
    ensures forall x :: x in r ==> exists i :: 0 <= i < |pats| && pats[i].1 == x
  {
    if pats == [] then []
    else
      var init := MatchingSets(pats[..|pats| - 1], matches, s);
      var last := pats[|pats| - 1];
      assert forall i :: 0 <= i < |pats| - 1 ==> pats[..|pats| - 1][i] == pats[i];
      if matches(last.0, s) then init + [last.1] else init
  }

  /** The glb of all matching sets, or nothing when no pattern matches. */
  function PatternDefault<H(==, !new), Q(==, !new)>(L: Hierarchy<H, Q>, pats: seq<(string, Annos<H, Q>)>,
                                                     matches: (string, string) -> bool, s: string): Option<Annos<H, Q>>
  {
    var ms := MatchingSets(pats, matches, s);
    if |ms| == 0 then None else Some(GlbFold(L, ms))
  }

  ghost predicate PatternsWellFormed<H(!new), Q(!new)>(L: Hierarchy<H, Q>, pats: seq<(string, Annos<H, Q>)>)
  {
    forall i :: 0 <= i < |pats| ==> WellFormed(L, pats[i].1)
  }

  /**
   * A string literal receives the greatest lower bound of the sets of all
   * patterns it matches: in each hierarchy all of them annotate, a qualifier
   * below each of theirs and above any other common lower bound.
   */
  lemma PatternDefaultIsGlb<H(!new), Q(!new)>(L: Hierarchy<H, Q>, pats: seq<(string, Annos<H, Q>)>,
                                              matches: (string, string) -> bool, s: string, h: H, c: Q)
    requires L.Valid() && PatternsWellFormed(L, pats)
    requires PatternDefault(L, pats, matches, s).Some? && h in PatternDefault(L, pats, matches, s).value
    ensures L.hierarchyOf(PatternDefault(L, pats, matches, s).value[h]) == h
    ensures forall i :: 0 <= i < |pats| && matches(pats[i].0, s) ==>
              h in pats[i].1 && L.isSubtype(PatternDefault(L, pats, matches, s).value[h], pats[i].1[h])
    ensures L.isSubtype(c, PatternDefault(L, pats, matches, s).value[h]) <==>
              forall i :: 0 <= i < |pats| && matches(pats[i].0, s) ==> L.isSubtype(c, pats[i].1[h])
  {
    var ms := MatchingSets(pats, matches, s);
    var g := GlbFold(L, ms);
    assert PatternDefault(L, pats, matches, s).value == g;
    MatchingSetsWellFormed(L, pats, matches, s);
    GlbFoldInfimum(L, ms, h, c);
    PatternsBelow(L, pats, matches, s, ms, h, g[h]);
    if forall i :: 0 <= i < |pats| && matches(pats[i].0, s) ==> L.isSubtype(c, pats[i].1[h]) {
      MatchingSetsFromPatterns(pats, matches, s);
      forall k | 0 <= k < |ms| ensures L.isSubtype(c, ms[k][h]) {
        var i :| 0 <= i < |pats| && matches(pats[i].0, s) && pats[i].1 == ms[k];
      }
    }
  }

  /** A bound on every matching set is a bound on every matching pattern's set. */
  lemma PatternsBelow<H(!new), Q(!new)>(L: Hierarchy<H, Q>, pats: seq<(string, Annos<H, Q>)>, matches: (string, string) -> bool,
                                        s: string, ms: seq<Annos<H, Q>>, h: H, g: Q)
    requires ms == MatchingSets(pats, matches, s)
    requires forall k :: 0 <= k < |ms| ==> h in ms[k] && L.isSubtype(g, ms[k][h])
    ensures forall i :: 0 <= i < |pats| && matches(pats[i].0, s) ==> h in pats[i].1 && L.isSubtype(g, pats[i].1[h])
  {
    MatchingSetsMembers(pats, matches, s);
    forall i | 0 <= i < |pats| && matches(pats[i].0, s) ensures h in pats[i].1 && L.isSubtype(g, pats[i].1[h]) {
      var k :| 0 <= k < |ms| && ms[k] == pats[i].1;
    }
  }

  /** Each matching set comes from a pattern the string matches. */
  lemma {:induction false} MatchingSetsFromPatterns<H(!new), Q(!new)>(pats: seq<(string, Annos<H, Q>)>, matches: (string, string) -> bool, s: string)
    ensures forall k :: 0 <= k < |MatchingSets(pats, matches, s)| ==>
              exists i :: 0 <= i < |pats| && matches(pats[i].0, s) && pats[i].1 == MatchingSets(pats, matches, s)[k]
    decreases |pats|
  {
    if pats == [] {
      assert |MatchingSets(pats, matches, s)| == 0;
    } else {
      var init := pats[..|pats| - 1];
      MatchingSetsFromPatterns(init, matches, s);
      var mi := MatchingSets(init, matches, s);
      var ms := MatchingSets(pats, matches, s);
      forall k | 0 <= k < |ms|
        ensures exists i :: 0 <= i < |pats| && matches(pats[i].0, s) && pats[i].1 == ms[k]
      {
        assert init == pats[..|pats| - 1];
        assert ms == (if matches(pats[|pats| - 1].0, s) then mi + [pats[|pats| - 1].1] else mi);
        if k < |mi| {
          assert ms[k] == mi[k];
          var i :| 0 <= i < |init| && matches(init[i].0, s) && init[i].1 == mi[k];
          assert pats[i] == init[i];
          assert 0 <= i < |pats| && matches(pats[i].0, s) && pats[i].1 == ms[k];
        } else {
          var i := |pats| - 1;
          assert 0 <= i < |pats| && matches(pats[i].0, s) && pats[i].1 == ms[k];
        }
      }
    }
  }

  lemma MatchingSetsWellFormed<H(!new), Q(!new)>(L: Hierarchy<H, Q>, pats: seq<(string, Annos<H, Q>)>,
                                                 matches: (string, string) -> bool, s: string)
    requires PatternsWellFormed(L, pats)
    ensures forall k :: 0 <= k < |MatchingSets(pats, matches, s)| ==> WellFormed(L, MatchingSets(pats, matches, s)[k])
  {
    var ms := MatchingSets(pats, matches, s);
    forall k | 0 <= k < |ms| ensures WellFormed(L, ms[k]) {
      assert ms[k] in ms;
    }
  }

  /** Every matching pattern's set is among the matching sets, and only those are. */
  lemma {:induction false} MatchingSetsMembers<H(!new), Q(!new)>(pats: seq<(string, Annos<H, Q>)>, matches: (string, string) -> bool, s: string)
    ensures forall i :: 0 <= i < |pats| && matches(pats[i].0, s) ==> pats[i].1 in MatchingSets(pats, matches, s)
    decreases |pats|
  {
    if pats != [] {
      var init := pats[..|pats| - 1];
      MatchingSetsMembers(init, matches, s);
      forall i | 0 <= i < |pats| - 1 ensures pats[i] == init[i] { }
    }
  }

  lemma NoMatchNoDefault<H(!new), Q(!new)>(L: Hierarchy<H, Q>, pats: seq<(string, Annos<H, Q>)>,
                                           matches: (string, string) -> bool, s: string)
    ensures PatternDefault(L, pats, matches, s).None? <==> forall i :: 0 <= i < |pats| ==> !matches(pats[i].0, s)
  {
  }

  // ---------------------------------------------------------------------
  // Array creation.

  /** prev: the lub of the initializers' qualifiers, or the component's own qualifiers. */
  function ArrayPrev<H(==, !new), Q(==, !new)>(L: Hierarchy<H, Q>, inits: seq<Annos<H, Q>>, componentAnnos: Annos<H, Q>): Annos<H, Q>
  {
    if |inits| > 0 then LubFold(L, inits) else componentAnnos
  }

  /** Every qualifier of prev lies below the context's qualifier of the same hierarchy, where it has one. */
  predicate PrevBelowContext<H(==, !new), Q(==, !new)>(L: Hierarchy<H, Q>, prev: Annos<H, Q>, ctx: Annos<H, Q>)
  {
    forall h :: h in prev && h in ctx ==> L.isSubtype(prev[h], ctx[h])
  }

  /** Whether the context's component qualifiers are used instead of prev. */
  predicate UseContext<H(==, !new), Q(==, !new)>(L: Hierarchy<H, Q>, prev: Annos<H, Q>, componentKind: TypeKind,
                                                  ctxKind: TypeKind, ctxAnnos: Annos<H, Q>)
  {
    ctxKind == componentKind && (|prev| == 0 || (|ctxAnnos| > 0 && PrevBelowContext(L, prev, ctxAnnos)))
  }

  /** The qualifiers given to the component: the context's when UseContext holds, else prev. */
  function NewArrayPost<H(==, !new), Q(==, !new)>(L: Hierarchy<H, Q>, prev: Annos<H, Q>, componentKind: TypeKind,
                                                   context: Option<(TypeKind, Annos<H, Q>)>): (r: Annos<H, Q>)
    ensures r == prev || (context.Some? && r == context.value.1)
  {
    if context.Some? && UseContext(L, prev, componentKind, context.value.0, context.value.1) then context.value.1 else prev
  }

  /**
   * The context is taken only when it does not contradict prev: every
   * qualifier prev has in a hierarchy the context annotates lies below the
   * context's; otherwise, or without an array context, prev is used.
   */
  lemma NewArrayPostChoice<H(!new), Q(!new)>(L: Hierarchy<H, Q>, prev: Annos<H, Q>, componentKind: TypeKind,
                                             context: Option<(TypeKind, Annos<H, Q>)>)
    requires NewArrayPost(L, prev, componentKind, context) != prev
    ensures context.Some? && context.value.0 == componentKind
    ensures forall h :: h in prev && h in context.value.1 ==> L.isSubtype(prev[h], context.value.1[h])
    ensures |prev| > 0 ==> |context.value.1| > 0
  {
  }

  /** With initializers, prev lies above every initializer in each hierarchy they all share, and is least so. */
  lemma ArrayPrevIsLub<H(!new), Q(!new)>(L: Hierarchy<H, Q>, inits: seq<Annos<H, Q>>, componentAnnos: Annos<H, Q>, h: H, c: Q)
    requires L.Valid() && |inits| > 0 && forall i :: 0 <= i < |inits| ==> WellFormed(L, inits[i])
    requires h in ArrayPrev(L, inits, componentAnnos)
    ensures forall i :: 0 <= i < |inits| ==> L.isSubtype(inits[i][h], ArrayPrev(L, inits, componentAnnos)[h])
    ensures L.isSubtype(ArrayPrev(L, inits, componentAnnos)[h], c) <==> forall i :: 0 <= i < |inits| ==> L.isSubtype(inits[i][h], c)
  {
    LubFoldSupremum(L, inits, h, c);
  }

  // ---------------------------------------------------------------------
  // The annotator object.

  class TreeAnnotator<H(==, !new), Q(==, !new)> {
    const lattice: Hierarchy<H, Q>
    /** The interfaces a tree implementation class implements, in declaration order. */
    const interfacesOf: string -> seq<string>
    /** Whether a regular expression matches a whole string. */
    const matches: (string, string) -> bool
    var treeKinds: map<TreeKind, Annos<H, Q>>
    var treeClasses: map<string, Annos<H, Q>>
    /** Patterns are compiled afresh on registration, so the registry is keyed by identity: a list. */
    var stringPatterns: seq<(string, Annos<H, Q>)>

    ghost predicate Valid()
      reads this
    {
      && lattice.Valid()
      && (forall k :: k in treeKinds ==> WellFormed(lattice, treeKinds[k]))
      && (forall k :: k in treeClasses ==> WellFormed(lattice, treeClasses[k]))
      && PatternsWellFormed(lattice, stringPatterns)
    }

    constructor (lattice: Hierarchy<H, Q>, interfacesOf: string -> seq<string>, matches: (string, string) -> bool)
      requires lattice.Valid()
      ensures Valid() && this.lattice == lattice && this.interfacesOf == interfacesOf && this.matches == matches
      ensures treeKinds == map[] && treeClasses == map[] && stringPatterns == []
    {
      this.lattice := lattice;
      this.interfacesOf := interfacesOf;
      this.matches := matches;
      treeKinds := map[];
      treeClasses := map[];
      stringPatterns := [];
    }

    /** addTreeKind: fails (the checker aborts) when the kind already has another qualifier of that hierarchy. */
    method AddTreeKind(kind: TreeKind, q: Q) returns (ok: bool)
      requires Valid()
      modifies this`treeKinds
      ensures Valid()
      ensures ok <==> UpdateMapping(lattice, old(treeKinds), kind, q).Some?
      ensures treeKinds == if ok then UpdateMapping(lattice, old(treeKinds), kind, q).value else old(treeKinds)
    {
      var r := UpdateMapping(lattice, treeKinds, kind, q);
      ok := r.Some?;
      if ok {
        treeKinds := r.value;
      }
    }

    /** addTreeClass: fails when the class already has another qualifier of that hierarchy. */
    method AddTreeClass(treeClass: string, q: Q) returns (ok: bool)
      requires Valid()
      modifies this`treeClasses
      ensures Valid()
      ensures ok <==> UpdateMapping(lattice, old(treeClasses), treeClass, q).Some?
      ensures treeClasses == if ok then UpdateMapping(lattice, old(treeClasses), treeClass, q).value else old(treeClasses)
    {
      var r := UpdateMapping(lattice, treeClasses, treeClass, q);
      ok := r.Some?;
      if ok {
        treeClasses := r.value;
      }
    }

    /** addStringPattern: a freshly compiled pattern is a new key, so registration always succeeds. */
    method AddStringPattern(pattern: string, q: Q)
      requires Valid()
      modifies this`stringPatterns
      ensures Valid()
      ensures stringPatterns == old(stringPatterns) + [(pattern, map[lattice.hierarchyOf(q) := q])]
    {
      stringPatterns := stringPatterns + [(pattern, map[lattice.hierarchyOf(q) := q])];
    }

    /** defaultAction: nothing for a missing tree or type; otherwise the kind registry, else the class registry. */
    method DefaultAction(tree: Option<Tree>, t: AType?<H, Q>)
      modifies this`treeClasses, t
      ensures tree.None? || t == null ==> treeClasses == old(treeClasses) && (t != null ==> t.annos == old(t.annos))
      ensures tree.Some? && t != null ==>
                (t.annos, treeClasses) == Defaulted(treeKinds, old(treeClasses), interfacesOf, tree.value, old(t.annos))
      ensures t != null ==> t.kind == old(t.kind) && t.component == old(t.component)
    {
      if tree.None? || t == null {
        return;
      }
      var tr := tree.value;
      if tr.kind in treeKinds {
        t.annos := AddMissing(t.annos, treeKinds[tr.kind]);
      } else if |treeClasses| != 0 {
        var c := tr.treeClass;
        if c in treeClasses {
          t.annos := AddMissing(t.annos, treeClasses[c]);
        }
        ghost var start := t.annos;
        var ifaces := interfacesOf(c);
        var j := 0;
        while j < |ifaces|
          invariant 0 <= j <= |ifaces|
          invariant (t.annos, treeClasses) == InterfaceDefaults(start, old(treeClasses), c, ifaces[..j])
          invariant t.kind == old(t.kind) && t.component == old(t.component)
        {
          assert ifaces[..j + 1][..j] == ifaces[..j];
          var i := ifaces[j];
          if i in treeClasses {
            t.annos := AddMissing(t.annos, treeClasses[i]);
            treeClasses := treeClasses[c := treeClasses[i]];
          }
          j := j + 1;
        }
        assert ifaces[..|ifaces|] == ifaces;
      }
    }

    /**
     * visitLiteral: a string literal gets the glb of the sets of the patterns
     * it matches; then the generic default applies.
     */
    method VisitLiteral(tree: Tree, t: AType<H, Q>)
      modifies this`treeClasses, t
      ensures (t.annos, treeClasses) ==
                Defaulted(treeKinds, old(treeClasses), interfacesOf, tree,
                          LiteralAnnos(old(t.annos), tree, PatternDefault(lattice, stringPatterns, matches, tree.value)))
    {
      if |stringPatterns| != 0 && tree.kind == StringLiteral {
        var res: Option<Annos<H, Q>> := None;
        var s := tree.value;
        var i := 0;
        while i < |stringPatterns|
          invariant 0 <= i <= |stringPatterns|
          invariant res == PatternDefault(lattice, stringPatterns[..i], matches, s)
        {
          var pats := stringPatterns[..i + 1];
          assert pats[..i] == stringPatterns[..i];
          ghost var ms := MatchingSets(stringPatterns[..i], matches, s);
          if matches(stringPatterns[i].0, s) {
            if res.None? {
              res := Some(stringPatterns[i].1);
              assert MatchingSets(pats, matches, s) == [stringPatterns[i].1];
            } else {
              res := Some(Glbs(lattice, res.value, stringPatterns[i].1));
              assert MatchingSets(pats, matches, s) == ms + [stringPatterns[i].1];
              assert (ms + [stringPatterns[i].1])[..|ms|] == ms;
            }
          }
          i := i + 1;
        }
        assert stringPatterns[..i] == stringPatterns;
        if res.Some? {
          t.annos := AddAll(t.annos, res.value);
        }
      }
      DefaultAction(Some(tree), t);
    }

    /** The target's annotations after the pattern step of visitLiteral. */
    static function LiteralAnnos(annos: Annos<H, Q>, tree: Tree, found: Option<Annos<H, Q>>): Annos<H, Q>
    {
      if tree.kind == StringLiteral && found.Some? then AddAll(annos, found.value) else annos
    }

    /** Whether every qualifier of prev lies below the context's qualifier in its hierarchy. */
    method PrevIsSubtype(prev: Annos<H, Q>, ctx: Annos<H, Q>) returns (r: bool)
      ensures r <==> PrevBelowContext(lattice, prev, ctx)
    {
      r := true;
      var todo := prev.Keys;
      while todo != {}
        invariant todo <= prev.Keys
        invariant r <==> forall h :: h in prev.Keys - todo && h in ctx ==> lattice.isSubtype(prev[h], ctx[h])
        decreases |todo|
      {
        var h :| h in todo;
        if h in ctx && !lattice.isSubtype(prev[h], ctx[h]) {
          r := false;
        }
        todo := todo - {h};
      }
    }

    /** The lub of the initializers' qualifiers, accumulated first to last. */
    method LubOfInitializers(inits: seq<Annos<H, Q>>) returns (prev: Annos<H, Q>)
      requires |inits| > 0
      ensures prev == LubFold(lattice, inits)
    {
      var acc: Option<Annos<H, Q>> := None;
      var i := 0;
      while i < |inits|
        invariant 0 <= i <= |inits|
        invariant acc == if i == 0 then None else Some(LubFold(lattice, inits[..i]))
      {
        assert inits[..i + 1][..i] == inits[..i];
        acc := if acc.None? then Some(inits[i]) else Some(Lubs(lattice, acc.value, inits[i]));
        i := i + 1;
      }
      assert inits[..i] == inits;
      prev := acc.value;
    }

    /** The qualifiers for the component: the context's when it fits, else prev. */
    method ChoosePost(prev: Annos<H, Q>, componentKind: TypeKind, context: Option<(TypeKind, Annos<H, Q>)>) returns (post: Annos<H, Q>)
      ensures post == NewArrayPost(lattice, prev, componentKind, context)
    {
      post := prev;
      if context.Some? {
        var (ctxKind, ctxAnnos) := context.value;
        var prevIsSubtype := PrevIsSubtype(prev, ctxAnnos);
        if ctxKind == componentKind && (|prev| == 0 || (|ctxAnnos| != 0 && prevIsSubtype)) {
          post := ctxAnnos;
        }
      }
    }

    /**
     * visitNewArray: the component gets, where missing, either the context's
     * component qualifiers (when the kinds agree and prev is empty or fits
     * below an annotated context) or prev; then the array type is defaulted.
     * The context is only read: it is given as the kind and qualifiers of its
     * component when it is an array type, and None otherwise.
     */
    method VisitNewArray(tree: Tree, t: AType<H, Q>, inits: seq<Annos<H, Q>>, context: Option<(TypeKind, Annos<H, Q>)>)
      requires t.kind == ArrayType && t.component != null && t.component != t
      modifies this`treeClasses, t, t.component
      ensures t.component == old(t.component)
      ensures t.component.annos ==
                AddMissing(old(t.component.annos),
                           NewArrayPost(lattice, ArrayPrev(lattice, inits, old(t.component.annos)), old(t.component.kind), context))
      ensures (t.annos, treeClasses) == Defaulted(treeKinds, old(treeClasses), interfacesOf, tree, old(t.annos))
    {
      var comp := t.component;
      var prev: Annos<H, Q>;
      if |inits| != 0 {
        prev := LubOfInitializers(inits);
      } else {
        prev := comp.annos;
      }
      var post := ChoosePost(prev, comp.kind, context);
      comp.annos := AddMissing(comp.annos, post);
      DefaultAction(Some(tree), t);
    }

    /** visitCompoundAssignment: the lub of the right- and left-hand sides fills missing qualifiers. */
    method VisitCompoundAssignment(tree: Tree, t: AType<H, Q>, rhsAnnos: Annos<H, Q>, lhsAnnos: Annos<H, Q>)
      modifies this`treeClasses, t
      ensures (t.annos, treeClasses) ==
                Defaulted(treeKinds, old(treeClasses), interfacesOf, tree, AddMissing(old(t.annos), Lubs(lattice, rhsAnnos, lhsAnnos)))
    {
      t.annos := AddMissing(t.annos, Lubs(lattice, rhsAnnos, lhsAnnos));
      DefaultAction(Some(tree), t);
    }

    /** visitBinary: the lub of the operands' effective qualifiers fills missing qualifiers. */
    method VisitBinary(tree: Tree, t: AType<H, Q>, leftEffective: Annos<H, Q>, rightEffective: Annos<H, Q>)
      modifies this`treeClasses, t
      ensures (t.annos, treeClasses) ==
                Defaulted(treeKinds, old(treeClasses), interfacesOf, tree, AddMissing(old(t.annos), Lubs(lattice, leftEffective, rightEffective)))
    {
      t.annos := AddMissing(t.annos, Lubs(lattice, leftEffective, rightEffective));
      DefaultAction(Some(tree), t);
    }

    /** visitUnary: the operand's qualifiers fill missing qualifiers. */
    method VisitUnary(tree: Tree, t: AType<H, Q>, operandAnnos: Annos<H, Q>)
      modifies this`treeClasses, t
      ensures (t.annos, treeClasses) ==
                Defaulted(treeKinds, old(treeClasses), interfacesOf, tree, AddMissing(old(t.annos), operandAnnos))
    {
      t.annos := AddMissing(t.annos, operandAnnos);
      DefaultAction(Some(tree), t);
    }

    /**
     * visitTypeCast: a cast to a type variable copies the direct qualifiers
     * of a type-variable expression and nothing otherwise; any other cast
     * takes the expression's effective qualifiers.
     */
    method VisitTypeCast(tree: Tree, t: AType<H, Q>, exprKind: TypeKind, exprAnnos: Annos<H, Q>, exprEffective: Annos<H, Q>)
      modifies this`treeClasses, t
      ensures (t.annos, treeClasses) ==
                Defaulted(treeKinds, old(treeClasses), interfacesOf, tree,
                          CastAnnos(old(t.kind), old(t.annos), exprKind, exprAnnos, exprEffective))
    {
      if t.kind == TypeVariable {
        if exprKind == TypeVariable {
          t.annos := AddMissing(t.annos, exprAnnos);
        }
      } else {
        t.annos := AddMissing(t.annos, exprEffective);
      }
      DefaultAction(Some(tree), t);
    }

    /** The target's annotations after the cast-specific step. */
    static function CastAnnos(kind: TypeKind, annos: Annos<H, Q>, exprKind: TypeKind, exprAnnos: Annos<H, Q>,
                              exprEffective: Annos<H, Q>): Annos<H, Q>
    {
      if kind != TypeVariable then AddMissing(annos, exprEffective)
      else if exprKind == TypeVariable then AddMissing(annos, exprAnnos)
      else annos
    }
  }

  /**
   * In every hierarchy a binary or compound-assignment result was missing and
   * both operands annotate, it now holds their lub: above both operands and
   * below any common upper bound. Hierarchies it had keep their qualifier.
   */
  lemma OperatorResultIsLub<H(!new), Q(!new)>(L: Hierarchy<H, Q>, annos: Annos<H, Q>, a: Annos<H, Q>, b: Annos<H, Q>, h: H, c: Q)
    requires L.Valid() && WellFormed(L, a) && WellFormed(L, b)
    requires h !in annos && h in a && h in b
    ensures var r := AddMissing(annos, Lubs(L, a, b));
            && L.isSubtype(a[h], r[h]) && L.isSubtype(b[h], r[h])
            && (L.isSubtype(r[h], c) <==> L.isSubtype(a[h], c) && L.isSubtype(b[h], c))
  {
    LubSupremum(L, a[h], b[h], c);
  }

  /** The three type-cast rules, and that a cast never replaces a qualifier already present. */
  lemma CastRules<H(!new), Q(!new)>(kind: TypeKind, annos: Annos<H, Q>, exprKind: TypeKind, exprAnnos: Annos<H, Q>, exprEffective: Annos<H, Q>)
    ensures kind == TypeVariable && exprKind != TypeVariable ==>
              TreeAnnotator<H, Q>.CastAnnos(kind, annos, exprKind, exprAnnos, exprEffective) == annos
    ensures kind == TypeVariable && exprKind == TypeVariable ==>
              TreeAnnotator<H, Q>.CastAnnos(kind, annos, exprKind, exprAnnos, exprEffective).Keys == annos.Keys + exprAnnos.Keys
    ensures kind != TypeVariable ==>
              TreeAnnotator<H, Q>.CastAnnos(kind, annos, exprKind, exprAnnos, exprEffective).Keys == annos.Keys + exprEffective.Keys
    ensures forall h :: h in annos ==> TreeAnnotator<H, Q>.CastAnnos(kind, annos, exprKind, exprAnnos, exprEffective)[h] == annos[h]
  {
  }
}
