// The property-key checker's defaulting. A string literal whose value names
// a key of the loaded property files gets @PropertyKey; the result of a
// binary operation or compound assignment loses it; the null literal
// defaults to the framework's Bottom.
//
// A key matches when it, or any suffix left after dropping leading
// dot-separated segments, is among the known keys: "x.y.z" matches "y.z".
//
// The hierarchy's @SubtypeOf declarations are not part of this model: it is
// taken to be the chain Bottom <: PropertyKey <: Unqualified, with one
// top (Unqualified) as in every single-hierarchy checker of the framework.

module PropKey {
  import opened Lattice
  import opened TreeAnnotation

  /** The property-key checker has a single qualifier hierarchy. */
  datatype PKHierarchy = PKHierarchy

  datatype PKQual = Unqualified | PropertyKey | Bottom

  function Rank(q: PKQual): nat
  {
    match q
    case Bottom => 0
    case PropertyKey => 1
    case Unqualified => 2
  }

  /** The chain Bottom <: PropertyKey <: Unqualified, as a lattice. */
  function PKLattice(): (L: Hierarchy<PKHierarchy, PKQual>)
    ensures forall a, b :: L.isSubtype(a, b) <==> Rank(a) <= Rank(b)
  {
    Hierarchy(
      (q: PKQual) => PKHierarchy,
      (a: PKQual, b: PKQual) => Rank(a) <= Rank(b),
      (a: PKQual, b: PKQual) => if Rank(a) <= Rank(b) then b else a,
      (a: PKQual, b: PKQual) => if Rank(a) <= Rank(b) then a else b)
  }

  lemma RankInjective(a: PKQual, b: PKQual)
    ensures Rank(a) == Rank(b) ==> a == b
  {
  }

  lemma PKLatticeValid()
    ensures PKLattice().Valid()
  {
    var L := PKLattice();
    forall a, b | Rank(a) <= Rank(b) && Rank(b) <= Rank(a) ensures a == b {
      RankInjective(a, b);
    }
  }

  // ---------------------------------------------------------------------
  // strContains.

  /** A position where a candidate key starts: the beginning, or just after a dot. */
  ghost predicate IsCandidateStart(k: string, st: int)
  {
    st == 0 || (0 < st <= |k| && k[st - 1] == '.')
  }

  /** The key, or a suffix of it after one of its dots, is a known key. */
  ghost predicate KeyMatches(messages: set<string>, k: string)
  {
    exists st :: 0 <= st <= |k| && IsCandidateStart(k, st) && k[st..] in messages
  }

  /** String.indexOf('.'): the first dot, or -1. */
  function IndexOfDot(s: string): (r: int)
    ensures -1 <= r < |s|
    ensures r == -1 <==> '.' !in s
    ensures r >= 0 ==> s[r] == '.' && '.' !in s[..r]
  {
    if |s| == 0 then -1
    else if s[0] == '.' then 0
    else
      var r := IndexOfDot(s[1..]);
      assert s[1..][..if r < 0 then 0 else r] == s[1..1 + (if r < 0 then 0 else r)];
      if r < 0 then -1 else r + 1
  }

  /**
   * strContains: try the key, then drop the leading segment up to the first
   * dot and try again, until a known key is found or no dot remains. The key
   * shortens on every round.
   */
  method StrContains(messages: set<string>, messageKey: string) returns (r: bool)
    ensures r <==> KeyMatches(messages, messageKey)
  {
    var key := messageKey;
    ghost var off := 0;
    while true
      invariant 0 <= off <= |messageKey| && key == messageKey[off..] && IsCandidateStart(messageKey, off)
      invariant forall st :: 0 <= st < off && IsCandidateStart(messageKey, st) ==> messageKey[st..] !in messages
      decreases |key|
    {
      if key in messages {
        return true;
      }
      var dot := IndexOfDot(key);
      if dot < 0 {
        forall st | off < st <= |messageKey| ensures !IsCandidateStart(messageKey, st) {
          assert messageKey[st - 1] == key[st - 1 - off];
        }
        return false;
      }
      forall st | off < st <= off + dot ensures !IsCandidateStart(messageKey, st) {
        assert messageKey[st - 1] == key[..dot][st - 1 - off];
      }
      assert messageKey[off + dot] == key[dot];
      key := key[dot + 1..];
      off := off + dot + 1;
    }
  }

  /** The documented example, and that only whole segments are dropped. */
  lemma StrContainsExamples()
    ensures KeyMatches({"y.z"}, "x.y.z")
    ensures KeyMatches({"x.y.z"}, "x.y.z")
    ensures !KeyMatches({"y.z"}, "xy.z")
    ensures !KeyMatches({}, "x.y.z")
  {
    assert "x.y.z"[2..] == "y.z";
    assert "x.y.z"[0..] == "x.y.z";
    var k := "xy.z";
    forall st | 0 <= st <= |k| && IsCandidateStart(k, st) ensures k[st..] != "y.z" {
      if st == 0 {
        assert k[st..] == k;
        assert k[0] != "y.z"[0];
      } else {
        assert st == 3;
        assert |k[st..]| == 1;
      }
    }
  }

  // ---------------------------------------------------------------------
  // The key-lookup tree annotator.

  /** The PropertyKey step of visitLiteral. */
  ghost function KeyAnnos(annos: Annos<PKHierarchy, PKQual>, tree: Tree, lookupKeys: set<string>): Annos<PKHierarchy, PKQual>
  {
    if PKHierarchy !in annos && tree.kind == StringLiteral && KeyMatches(lookupKeys, tree.value)
    then annos[PKHierarchy := PropertyKey] else annos
  }

  /**
   * A literal gains PropertyKey exactly when it is an unannotated string
   * literal naming a known key; an annotated literal keeps its qualifier.
   */
  lemma KeyAnnosSpec(annos: Annos<PKHierarchy, PKQual>, tree: Tree, lookupKeys: set<string>)
    ensures PKHierarchy in annos ==> KeyAnnos(annos, tree, lookupKeys) == annos
    ensures PKHierarchy !in annos ==>
              (PKHierarchy in KeyAnnos(annos, tree, lookupKeys) <==> tree.kind == StringLiteral && KeyMatches(lookupKeys, tree.value))
    ensures PKHierarchy in KeyAnnos(annos, tree, lookupKeys) && PKHierarchy !in annos ==>
              KeyAnnos(annos, tree, lookupKeys)[PKHierarchy] == PropertyKey
  {
  }

  /** removeAnnotation: drop the qualifier if the type carries exactly it. */
  function RemoveAnnotation(annos: Annos<PKHierarchy, PKQual>, q: PKQual): (r: Annos<PKHierarchy, PKQual>)
    ensures forall h :: h in r <==> h in annos && annos[h] != q
    ensures forall h :: h in r ==> r[h] == annos[h]
  {
    map h | h in annos && annos[h] != q :: annos[h]
  }

  class KeyLookupTreeAnnotator {
    /** The generic annotator this one extends. */
    const base: TreeAnnotator<PKHierarchy, PKQual>
    const lookupKeys: set<string>
    const theAnnot: PKQual

    ghost predicate Valid()
      reads this, base
    {
      base.Valid() && base.lattice == PKLattice() && theAnnot == PropertyKey
    }

    /**
     * The factory's constructor: build the annotator for PropertyKey and
     * make Bottom the default of the null literal.
     */
    constructor (lookupKeys: set<string>, interfacesOf: string -> seq<string>, matches: (string, string) -> bool)
      ensures Valid() && fresh(base) && this.lookupKeys == lookupKeys
      ensures base.treeKinds == map[NullLiteral := map[PKHierarchy := Bottom]]
      ensures base.treeClasses == map[] && base.stringPatterns == []
    {
      PKLatticeValid();
      var b := new TreeAnnotator(PKLattice(), interfacesOf, matches);
      base := b;
      this.lookupKeys := lookupKeys;
      theAnnot := PropertyKey;
      new;
      var ok := b.AddTreeKind(NullLiteral, Bottom);
    }

    /** visitLiteral: the PropertyKey step, then the generic visitLiteral. */
    method VisitLiteral(tree: Tree, t: AType<PKHierarchy, PKQual>)
      requires Valid()
      modifies base`treeClasses, t
      ensures (t.annos, base.treeClasses) ==
                Defaulted(base.treeKinds, old(base.treeClasses), base.interfacesOf, tree,
                  TreeAnnotator<PKHierarchy, PKQual>.LiteralAnnos(
                    KeyAnnos(old(t.annos), tree, lookupKeys), tree,
                    PatternDefault(base.lattice, base.stringPatterns, base.matches, tree.value)))
    {
      if PKHierarchy !in t.annos && tree.kind == StringLiteral {
        var found := StrContains(lookupKeys, tree.value);
        if found {
          t.annos := t.annos[PKHierarchy := theAnnot];
        }
      }
      base.VisitLiteral(tree, t);
    }

    /** visitBinary: the result might not be a key, so PropertyKey is removed; nothing else runs. */
    method VisitBinary(tree: Tree, t: AType<PKHierarchy, PKQual>)
      requires Valid()
      modifies t`annos
      ensures t.annos == RemoveAnnotation(old(t.annos), PropertyKey)
    {
      t.annos := RemoveAnnotation(t.annos, theAnnot);
    }

    /** visitCompoundAssignment: as visitBinary. */
    method VisitCompoundAssignment(tree: Tree, t: AType<PKHierarchy, PKQual>)
      requires Valid()
      modifies t`annos
      ensures t.annos == RemoveAnnotation(old(t.annos), PropertyKey)
    {
      t.annos := RemoveAnnotation(t.annos, theAnnot);
    }
  }

  /** No operator result is a PropertyKey, and its other qualifiers are kept. */
  lemma OperatorResultNotKey(annos: Annos<PKHierarchy, PKQual>)
    ensures PKHierarchy in RemoveAnnotation(annos, PropertyKey) ==> RemoveAnnotation(annos, PropertyKey)[PKHierarchy] != PropertyKey
    ensures PKHierarchy in annos && annos[PKHierarchy] != PropertyKey ==> RemoveAnnotation(annos, PropertyKey) == annos
  {
    if PKHierarchy in annos && annos[PKHierarchy] != PropertyKey {
      var r := RemoveAnnotation(annos, PropertyKey);
      forall h | h in annos ensures h in r {
        assert h == PKHierarchy;
      }
      assert r.Keys == annos.Keys;
    }
  }

  /** With the registry the constructor sets up, an unannotated null literal gets Bottom. */
  lemma NullLiteralIsBottom(classes: map<string, Annos<PKHierarchy, PKQual>>, interfacesOf: string -> seq<string>,
                            pats: seq<(string, Annos<PKHierarchy, PKQual>)>, matches: (string, string) -> bool,
                            lookupKeys: set<string>, tree: Tree, annos: Annos<PKHierarchy, PKQual>)
    requires tree.kind == NullLiteral && PKHierarchy !in annos
    ensures var r := Defaulted(map[NullLiteral := map[PKHierarchy := Bottom]], classes, interfacesOf, tree,
                               TreeAnnotator<PKHierarchy, PKQual>.LiteralAnnos(
                                 KeyAnnos(annos, tree, lookupKeys), tree, PatternDefault(PKLattice(), pats, matches, tree.value)));
            PKHierarchy in r.0 && r.0[PKHierarchy] == Bottom && r.1 == classes
  {
  }
}
