// The nullness checker's dataflow store: an initialization store (flow
// expressions mapped to inferred qualifier sets) plus one boolean,
// isPolyNullNull, recording whether @PolyNull is known to be @Nullable.
//
// The base store (CFAbstractStore / InitializationStore) is not part of this
// model. Its behaviour is taken as: an empty map on construction, a join that
// keeps the expressions known in both stores with the pointwise lub of their
// qualifier sets, and a superset test asking that every entry of the other
// store be present here with an equal value.

module Stores {
  import opened Lattice

  /** The abstract value of a store: what the dataflow analysis compares and joins. */
  datatype StoreState<H(==, !new), Q(==, !new)> = StoreState(values: map<string, Annos<H, Q>>, isPolyNullNull: bool)

  ghost predicate StateWellFormed<H(!new), Q(!new)>(L: Hierarchy<H, Q>, s: StoreState<H, Q>)
  {
    forall k :: k in s.values ==> WellFormed(L, s.values[k])
  }

  /** The base store's join: expressions known in both, with the lub of their qualifier sets. */
  function JoinValues<H(==, !new), Q(==, !new)>(L: Hierarchy<H, Q>, a: map<string, Annos<H, Q>>, b: map<string, Annos<H, Q>>)
    : (r: map<string, Annos<H, Q>>)
    ensures r.Keys == a.Keys * b.Keys
  {
    map k | k in a.Keys * b.Keys :: Lubs(L, a[k], b[k])
  }

  /** The join NullnessStore.leastUpperBound specifies: the base join plus the flag rule. */
  function JoinStates<H(==, !new), Q(==, !new)>(L: Hierarchy<H, Q>, a: StoreState<H, Q>, b: StoreState<H, Q>): StoreState<H, Q>
  {
    StoreState(JoinValues(L, a.values, b.values), a.isPolyNullNull && b.isPolyNullNull)
  }

  /** The base store's superset test. */
  predicate BaseSupersetOf<H(==, !new), Q(==, !new)>(mine: map<string, Annos<H, Q>>, theirs: map<string, Annos<H, Q>>)
  {
    forall k :: k in theirs ==> k in mine && mine[k] == theirs[k]
  }

  // ---------------------------------------------------------------------
  // supersetOf, a guard chain over the dynamic class of the other store.

  /** The store classes an argument of supersetOf can belong to. */
  datatype StoreKind = PlainStore | InitializationStore | NullnessStoreKind

  datatype OtherStore<H(==, !new), Q(==, !new)> = OtherStore(kind: StoreKind, state: StoreState<H, Q>)

  /** A boolean answer, or the ClassCastException the downcast raises. */
  datatype Outcome = Returns(answer: bool) | ClassCastFailure

  /**
   * supersetOf: not an InitializationStore gives false; any other store is
   * downcast to NullnessStore (which only a NullnessStore survives); differing
   * flags give false; otherwise the base test decides.
   */
  function SupersetOf<H(==, !new), Q(==, !new)>(mine: StoreState<H, Q>, o: OtherStore<H, Q>): (r: Outcome)
    ensures o.kind == PlainStore ==> r == Returns(false)
    ensures o.kind == InitializationStore ==> r == ClassCastFailure
    ensures o.kind == NullnessStoreKind && o.state.isPolyNullNull != mine.isPolyNullNull ==> r == Returns(false)
    ensures r == Returns(true) <==>
              o.kind == NullnessStoreKind && o.state.isPolyNullNull == mine.isPolyNullNull
              && BaseSupersetOf(mine.values, o.state.values)
  {
    if o.kind == PlainStore then Returns(false)
    else if o.kind != NullnessStoreKind then ClassCastFailure
    else if o.state.isPolyNullNull != mine.isPolyNullNull then Returns(false)
    else Returns(BaseSupersetOf(mine.values, o.state.values))
  }

  /** The flag of a join is set exactly when it is set in both operands. */
  lemma JoinFlag<H(!new), Q(!new)>(L: Hierarchy<H, Q>, a: StoreState<H, Q>, b: StoreState<H, Q>)
    ensures JoinStates(L, a, b).isPolyNullNull <==> a.isPolyNullNull && b.isPolyNullNull
    ensures !a.isPolyNullNull ==> !JoinStates(L, a, b).isPolyNullNull
  {
  }

  lemma JoinStatesCommutative<H(!new), Q(!new)>(L: Hierarchy<H, Q>, a: StoreState<H, Q>, b: StoreState<H, Q>)
    requires L.Valid() && StateWellFormed(L, a) && StateWellFormed(L, b)
    ensures JoinStates(L, a, b) == JoinStates(L, b, a)
  {
    forall k | k in a.values.Keys * b.values.Keys
      ensures Lubs(L, a.values[k], b.values[k]) == Lubs(L, b.values[k], a.values[k])
    {
      LubsCommutative(L, a.values[k], b.values[k]);
    }
  }

  lemma JoinStatesIdempotent<H(!new), Q(!new)>(L: Hierarchy<H, Q>, a: StoreState<H, Q>)
    requires L.Valid()
    ensures JoinStates(L, a, a) == a
  {
    forall k | k in a.values ensures Lubs(L, a.values[k], a.values[k]) == a.values[k] {
      LubsIdempotent(L, a.values[k]);
    }
  }

  lemma JoinStatesWellFormed<H(!new), Q(!new)>(L: Hierarchy<H, Q>, a: StoreState<H, Q>, b: StoreState<H, Q>)
    requires L.Valid() && StateWellFormed(L, a) && StateWellFormed(L, b)
    ensures StateWellFormed(L, JoinStates(L, a, b))
  {
    forall k | k in a.values.Keys * b.values.Keys ensures WellFormed(L, Lubs(L, a.values[k], b.values[k])) {
      LubsWellFormed(L, a.values[k], b.values[k]);
    }
  }

  lemma JoinStatesAssociative<H(!new), Q(!new)>(L: Hierarchy<H, Q>, a: StoreState<H, Q>, b: StoreState<H, Q>, c: StoreState<H, Q>)
    requires L.Valid() && StateWellFormed(L, a) && StateWellFormed(L, b) && StateWellFormed(L, c)
    ensures JoinStates(L, JoinStates(L, a, b), c) == JoinStates(L, a, JoinStates(L, b, c))
  {
    forall k | k in a.values.Keys * b.values.Keys * c.values.Keys
      ensures Lubs(L, Lubs(L, a.values[k], b.values[k]), c.values[k])
           == Lubs(L, a.values[k], Lubs(L, b.values[k], c.values[k]))
    {
      LubsAssociative(L, a.values[k], b.values[k], c.values[k]);
    }
  }

  /**
   * Joining a store with itself yields a store the original is a superset of:
   * the fixpoint's convergence test accepts a repeated join.
   */
  lemma SelfJoinConverges<H(!new), Q(!new)>(L: Hierarchy<H, Q>, a: StoreState<H, Q>)
    requires L.Valid()
    ensures SupersetOf(a, OtherStore(NullnessStoreKind, JoinStates(L, a, a))) == Returns(true)
  {
    JoinStatesIdempotent(L, a);
  }

  // ---------------------------------------------------------------------
  // The store object.

  class NullnessStore<H(==, !new), Q(==, !new)> {
    const lattice: Hierarchy<H, Q>
    const sequentialSemantics: bool
    var values: map<string, Annos<H, Q>>
    var isPolyNullNull: bool

    ghost function State(): StoreState<H, Q>
      reads this
    {
      StoreState(values, isPolyNullNull)
    }

    ghost predicate Valid()
      reads this
    {
      lattice.Valid() && StateWellFormed(lattice, State())
    }

    /** A fresh store knows nothing and has the flag cleared. */
    constructor (lattice: Hierarchy<H, Q>, sequentialSemantics: bool)
      requires lattice.Valid()
      ensures Valid()
      ensures this.lattice == lattice && this.sequentialSemantics == sequentialSemantics
      ensures values == map[] && !isPolyNullNull
    {
      this.lattice := lattice;
      this.sequentialSemantics := sequentialSemantics;
      values := map[];
      isPolyNullNull := false;
    }

    /** The copy constructor: same entries, same flag. */
    constructor CopyOf(s: NullnessStore<H, Q>)
      requires s.Valid()
      ensures Valid()
      ensures lattice == s.lattice && sequentialSemantics == s.sequentialSemantics
      ensures State() == s.State()
    {
      lattice := s.lattice;
      sequentialSemantics := s.sequentialSemantics;
      values := s.values;
      isPolyNullNull := s.isPolyNullNull;
    }

    /** copy(): a new store object equal to this one. */
    method Copy() returns (c: NullnessStore<H, Q>)
      requires Valid()
      ensures fresh(c) && c.Valid()
      ensures c.lattice == lattice && c.State() == State()
    {
      c := new NullnessStore.CopyOf(this);
    }

    /**
     * leastUpperBound: a new store holding the base join, whose flag is kept
     * when both flags agree and cleared otherwise.
     */
    method LeastUpperBound(other: NullnessStore<H, Q>) returns (lub: NullnessStore<H, Q>)
      requires Valid() && other.Valid() && other.lattice == lattice
      ensures fresh(lub) && lub.Valid() && lub.lattice == lattice
      ensures lub.State() == JoinStates(lattice, State(), other.State())
    {
      lub := new NullnessStore(lattice, sequentialSemantics);
      lub.values := JoinValues(lattice, values, other.values);
      JoinStatesWellFormed(lattice, State(), other.State());
      if isPolyNullNull == other.isPolyNullNull {
        lub.isPolyNullNull := isPolyNullNull;
      } else {
        lub.isPolyNullNull := false;
      }
    }

    /** supersetOf with a NullnessStore argument. */
    function SupersetOfStore(other: NullnessStore<H, Q>): (r: bool)
      reads this, other
      ensures r <==> other.isPolyNullNull == isPolyNullNull && BaseSupersetOf(values, other.values)
    {
      SupersetOf(StoreState(values, isPolyNullNull),
                 OtherStore(NullnessStoreKind, StoreState(other.values, other.isPolyNullNull))).answer
    }

    function IsPolyNullNull(): bool
      reads this
    {
      isPolyNullNull
    }

    /** setPolyNullNull(v): the flag reads back as v, the entries are untouched. */
    method SetPolyNullNull(v: bool)
      requires Valid()
      modifies this`isPolyNullNull
      ensures Valid() && IsPolyNullNull() == v && values == old(values)
    {
      isPolyNullNull := v;
    }
  }
}
