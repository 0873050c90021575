// The qualifier hierarchy of the flow-sensitivity test checker. Its
// qualifiers are Value, Odd, Unqualified and Bottom (Bottom is the bottom of
// the hierarchy). Value carries element values and is compared with them:
// Value(x) <: Value(y) only when the two annotations are the same. Every
// other question is asked of the declared graph with the values erased.
//
// The @SubtypeOf declarations of Value and Odd are not part of this model,
// so the graph relation is a parameter, constrained by GraphValid.

module FlowTest {

  /** The declared qualifiers; Value's element values are kept as strings. */
  datatype FlowQual = Value(values: seq<string>) | Odd | Unqualified | Bottom

  /** The graph's nodes: qualifiers with values erased. */
  datatype FlowKind = ValueKind | OddKind | UnqualifiedKind | BottomKind

  function KindOf(q: FlowQual): FlowKind
  {
    match q
    case Value(_) => ValueKind
    case Odd => OddKind
    case Unqualified => UnqualifiedKind
    case Bottom => BottomKind
  }

  /** The graph is a partial order with BottomKind below every node. */
  ghost predicate GraphValid(graph: (FlowKind, FlowKind) -> bool)
  {
    && (forall a :: graph(a, a))
    && (forall a, b, c :: graph(a, b) && graph(b, c) ==> graph(a, c))
    && (forall a, b :: graph(a, b) && graph(b, a) ==> a == b)
    && (forall a :: graph(BottomKind, a))
  }

  /**
   * FlowQualifierHierarchy.isSubtype: two Values are related only when
   * identical; otherwise a Value on either side is erased and the graph decides.
   */
  predicate IsSubtype(graph: (FlowKind, FlowKind) -> bool, rhs: FlowQual, lhs: FlowQual)
  {
    if rhs.Value? && lhs.Value? then rhs == lhs
    else graph(KindOf(rhs), KindOf(lhs))
  }

  /** Value(x) <: Value(y) exactly when the annotations are identical, values included. */
  lemma ValueSubtypeIffSame(graph: (FlowKind, FlowKind) -> bool, x: seq<string>, y: seq<string>)
    ensures IsSubtype(graph, Value(x), Value(y)) <==> x == y
  {
  }

  /** A Value facing a non-Value is compared in the graph as plain Value. */
  lemma OneSidedValueErased(graph: (FlowKind, FlowKind) -> bool, x: seq<string>, q: FlowQual)
    requires !q.Value?
    ensures IsSubtype(graph, Value(x), q) == graph(ValueKind, KindOf(q))
    ensures IsSubtype(graph, q, Value(x)) == graph(KindOf(q), ValueKind)
    ensures IsSubtype(graph, Value(x), q) == IsSubtype(graph, Value([]), q)
  {
  }

  /** Pairs without a Value go to the graph unchanged. */
  lemma NonValueDelegated(graph: (FlowKind, FlowKind) -> bool, a: FlowQual, b: FlowQual)
    requires !a.Value? && !b.Value?
    ensures IsSubtype(graph, a, b) == graph(KindOf(a), KindOf(b))
  {
  }

  /** Bottom, the designated bottom, lies below every qualifier, every Value included. */
  lemma BottomIsBottom(graph: (FlowKind, FlowKind) -> bool, q: FlowQual)
    requires GraphValid(graph)
    ensures IsSubtype(graph, Bottom, q)
  {
  }

  /**
   * Over a partial-order graph the value-sensitive relation is a partial
   * order too: reflexive, antisymmetric (values included) and transitive.
   */
  lemma IsSubtypePartialOrder(graph: (FlowKind, FlowKind) -> bool, a: FlowQual, b: FlowQual, c: FlowQual)
    requires GraphValid(graph)
    ensures IsSubtype(graph, a, a)
    ensures IsSubtype(graph, a, b) && IsSubtype(graph, b, a) ==> a == b
    ensures IsSubtype(graph, a, b) && IsSubtype(graph, b, c) ==> IsSubtype(graph, a, c)
  {
    if IsSubtype(graph, a, b) && IsSubtype(graph, b, a) && !(a.Value? && b.Value?) {
      assert KindOf(a) == KindOf(b);
    }
    if IsSubtype(graph, a, b) && IsSubtype(graph, b, c) {
      if a.Value? && c.Value? && !b.Value? {
        // Value <: k <: Value in the graph forces k == Value, which b is not.
        assert false;
      }
    }
  }
}
