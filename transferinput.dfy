// The input of a dataflow transfer function: either one regular store, or a
// pair of stores for the 'then' and 'else' outcomes of a boolean node. The
// store type is instantiated with the nullness store.
//
// Ownership: a store handed to a TransferInput belongs to it from then on;
// copies and joins always allocate new store objects. The node-value mapping
// is provided by the analysis and only passed along, so it is modelled by its
// identity alone.

module Transfer {
  import opened Lattice
  import opened Stores

  /** The analysis' node-to-value mapping, shared and never read here. */
  class NodeValues {
    constructor ()
    {
    }
  }

  /** The result of a transfer function, whose stores a new input takes over. */
  datatype TransferResult<H(==, !new), Q(==, !new)> =
    | RegularResult(regular: NullnessStore<H, Q>)
    | ConditionalResult(thenResult: NullnessStore<H, Q>, elseResult: NullnessStore<H, Q>)

  // ---------------------------------------------------------------------
  // The abstract value of an input and its join.

  datatype InputState<H(==, !new), Q(==, !new)> =
    | Unified(store: StoreState<H, Q>)
    | Split(thenState: StoreState<H, Q>, elseState: StoreState<H, Q>)

  ghost predicate InputWellFormed<H(!new), Q(!new)>(L: Hierarchy<H, Q>, s: InputState<H, Q>)
  {
    match s
    case Unified(st) => StateWellFormed(L, st)
    case Split(t, e) => StateWellFormed(L, t) && StateWellFormed(L, e)
  }

  /** getRegularStore: the join of both branches, or the one store. */
  function RegularView<H(==, !new), Q(==, !new)>(L: Hierarchy<H, Q>, s: InputState<H, Q>): StoreState<H, Q>
  {
    match s
    case Unified(st) => st
    case Split(t, e) => JoinStates(L, t, e)
  }

  /** getThenStore / getElseStore: a unified input answers both with its one store. */
  function ThenView<H(==, !new), Q(==, !new)>(s: InputState<H, Q>): StoreState<H, Q>
  {
    if s.Unified? then s.store else s.thenState
  }

  function ElseView<H(==, !new), Q(==, !new)>(s: InputState<H, Q>): StoreState<H, Q>
  {
    if s.Unified? then s.store else s.elseState
  }

  /**
   * leastUpperBound: a split operand joins branch by branch with the other
   * operand's branch views; a unified one defers to a split partner so that
   * the split is kept; two unified operands join their stores.
   */
  function InputJoin<H(==, !new), Q(==, !new)>(L: Hierarchy<H, Q>, a: InputState<H, Q>, b: InputState<H, Q>): InputState<H, Q>
    decreases if a.Unified? then 1 else 0
  {
    match a
    case Split(t, e) => Split(JoinStates(L, t, ThenView(b)), JoinStates(L, e, ElseView(b)))
    case Unified(st) =>
      if b.Split? then InputJoin(L, b, a) else Unified(JoinStates(L, st, RegularView(L, b)))
  }

  /** The join never loses a split: it is split exactly when an operand is. */
  lemma InputJoinKeepsSplit<H(!new), Q(!new)>(L: Hierarchy<H, Q>, a: InputState<H, Q>, b: InputState<H, Q>)
    ensures InputJoin(L, a, b).Split? <==> a.Split? || b.Split?
    ensures a.Unified? && b.Unified? ==> InputJoin(L, a, b) == Unified(JoinStates(L, a.store, b.store))
  {
  }

  /** Without two stores, all three views return the same store contents. */
  lemma UnifiedViewsAgree<H(!new), Q(!new)>(L: Hierarchy<H, Q>, s: InputState<H, Q>)
    requires s.Unified?
    ensures RegularView(L, s) == ThenView(s) == ElseView(s) == s.store
  {
  }

  lemma InputJoinCommutative<H(!new), Q(!new)>(L: Hierarchy<H, Q>, a: InputState<H, Q>, b: InputState<H, Q>)
    requires L.Valid() && InputWellFormed(L, a) && InputWellFormed(L, b)
    ensures InputJoin(L, a, b) == InputJoin(L, b, a)
  {
    match (a, b)
    case (Split(t1, e1), Split(t2, e2)) =>
      JoinStatesCommutative(L, t1, t2);
      JoinStatesCommutative(L, e1, e2);
    case (Unified(s1), Unified(s2)) =>
      JoinStatesCommutative(L, s1, s2);
    case _ =>
  }

  lemma InputJoinIdempotent<H(!new), Q(!new)>(L: Hierarchy<H, Q>, a: InputState<H, Q>)
    requires L.Valid()
    ensures InputJoin(L, a, a) == a
  {
    match a
    case Split(t, e) =>
      JoinStatesIdempotent(L, t);
      JoinStatesIdempotent(L, e);
    case Unified(s) =>
      JoinStatesIdempotent(L, s);
  }

  /**
   * Joining inputs is compatible with the regular view: the regular store of
   * the join is the join of the regular stores, as the contract of a store
   * join demands.
   */
  lemma RegularViewOfJoin<H(!new), Q(!new)>(L: Hierarchy<H, Q>, a: InputState<H, Q>, b: InputState<H, Q>)
    requires L.Valid() && InputWellFormed(L, a) && InputWellFormed(L, b)
    ensures RegularView(L, InputJoin(L, a, b)) == JoinStates(L, RegularView(L, a), RegularView(L, b))
  {
    match (a, b)
    case (Unified(s1), Unified(s2)) =>
    case (Split(t, e), Unified(s)) =>
      SplitWithUnified(L, t, e, s);
    case (Unified(s), Split(t, e)) =>
      SplitWithUnified(L, t, e, s);
      JoinStatesWellFormed(L, t, e);
      JoinStatesCommutative(L, JoinStates(L, t, e), s);
    case (Split(t1, e1), Split(t2, e2)) =>
      JoinStatesWellFormed(L, t1, t2);
      JoinStatesWellFormed(L, e1, e2);
      JoinStatesWellFormed(L, t1, e1);
      JoinStatesWellFormed(L, t2, e2);
      JoinStatesWellFormed(L, e1, JoinStates(L, t2, e2));
      JoinStatesWellFormed(L, t2, e1);
      // (t1+t2) + (e1+e2) == t1 + (t2 + (e1 + e2))
      JoinStatesAssociative(L, t1, t2, JoinStates(L, e1, e2));
      // t2 + (e1 + e2) == (t2 + e1) + e2 == (e1 + t2) + e2 == e1 + (t2 + e2)
      JoinStatesAssociative(L, t2, e1, e2);
      JoinStatesCommutative(L, t2, e1);
      JoinStatesAssociative(L, e1, t2, e2);
      // t1 + (e1 + (t2 + e2)) == (t1 + e1) + (t2 + e2)
      JoinStatesAssociative(L, t1, e1, JoinStates(L, t2, e2));
  }

  lemma SplitWithUnified<H(!new), Q(!new)>(L: Hierarchy<H, Q>, t: StoreState<H, Q>, e: StoreState<H, Q>, s: StoreState<H, Q>)
    requires L.Valid() && StateWellFormed(L, t) && StateWellFormed(L, e) && StateWellFormed(L, s)
    ensures JoinStates(L, JoinStates(L, t, s), JoinStates(L, e, s)) == JoinStates(L, JoinStates(L, t, e), s)
  {
    JoinStatesWellFormed(L, t, s);
    JoinStatesWellFormed(L, e, s);
    JoinStatesWellFormed(L, t, e);
    // (t+s) + (e+s) == t + (s + (e + s)) == t + ((e + s) + s) == t + (e + (s + s)) == t + (e + s) == (t + e) + s
    JoinStatesAssociative(L, t, s, JoinStates(L, e, s));
    JoinStatesCommutative(L, s, JoinStates(L, e, s));
    JoinStatesAssociative(L, e, s, s);
    JoinStatesIdempotent(L, s);
    JoinStatesAssociative(L, t, e, s);
  }

  // ---------------------------------------------------------------------
  // The input object.

  class TransferInput<H(==, !new), Q(==, !new)> {
    const lattice: Hierarchy<H, Q>
    var nodeValues: NodeValues
    var store: NullnessStore?<H, Q>
    var thenStore: NullnessStore?<H, Q>
    var elseStore: NullnessStore?<H, Q>

    /** Every store present is valid over the same lattice. */
    ghost predicate StoresValid()
      reads this, store, thenStore, elseStore
    {
      && lattice.Valid()
      && (store != null ==> store.Valid() && store.lattice == lattice)
      && (thenStore != null ==> thenStore.Valid() && thenStore.lattice == lattice)
      && (elseStore != null ==> elseStore.Valid() && elseStore.lattice == lattice)
    }

    /** The documented invariant: no regular store exactly when both branch stores are present. */
    ghost predicate Valid()
      reads this, store, thenStore, elseStore
    {
      && (store == null <==> thenStore != null && elseStore != null)
      && StoresValid()
    }

    ghost function Abstract(): (s: InputState<H, Q>)
      reads this, store, thenStore, elseStore
      requires Valid()
      ensures InputWellFormed(lattice, s)
    {
      if store == null then Split(thenStore.State(), elseStore.State()) else Unified(store.State())
    }

    /** Takes over the stores of a transfer result: both branch stores, or the regular one. */
    constructor FromResult(lattice: Hierarchy<H, Q>, nodeValues: NodeValues, to: TransferResult<H, Q>)
      requires lattice.Valid()
      requires to.RegularResult? ==> to.regular.Valid() && to.regular.lattice == lattice
      requires to.ConditionalResult? ==>
                 to.thenResult.Valid() && to.thenResult.lattice == lattice
                 && to.elseResult.Valid() && to.elseResult.lattice == lattice
      ensures Valid() && this.lattice == lattice && this.nodeValues == nodeValues
      ensures to.ConditionalResult? ==> store == null && thenStore == to.thenResult && elseStore == to.elseResult
      ensures to.RegularResult? ==> store == to.regular && thenStore == null && elseStore == null
    {
      this.lattice := lattice;
      this.nodeValues := nodeValues;
      if to.ConditionalResult? {
        store := null;
        thenStore := to.thenResult;
        elseStore := to.elseResult;
      } else {
        store := to.regular;
        thenStore := null;
        elseStore := null;
      }
    }

    /** Takes over one store: a unified input. */
    constructor FromStore(nodeValues: NodeValues, s: NullnessStore<H, Q>)
      requires s.Valid()
      ensures Valid() && lattice == s.lattice && this.nodeValues == nodeValues
      ensures store == s && thenStore == null && elseStore == null
    {
      lattice := s.lattice;
      this.nodeValues := nodeValues;
      store := s;
      thenStore := null;
      elseStore := null;
    }

    /** Takes over two stores: a split input. */
    constructor FromStores(nodeValues: NodeValues, s1: NullnessStore<H, Q>, s2: NullnessStore<H, Q>)
      requires s1.Valid() && s2.Valid() && s1.lattice == s2.lattice
      ensures Valid() && lattice == s1.lattice && this.nodeValues == nodeValues
      ensures store == null && thenStore == s1 && elseStore == s2
    {
      lattice := s1.lattice;
      this.nodeValues := nodeValues;
      store := null;
      thenStore := s1;
      elseStore := s2;
    }

    /** The copy constructor: same shape, fresh copies of every store, shared node values. */
    constructor CopyOf(from: TransferInput<H, Q>)
      requires from.Valid()
      ensures Valid() && lattice == from.lattice && nodeValues == from.nodeValues
      ensures (store == null) == (from.store == null)
      ensures Abstract() == from.Abstract()
      ensures store != null ==> fresh(store)
      ensures store == null ==> fresh(thenStore) && fresh(elseStore) && thenStore != elseStore
    {
      lattice := from.lattice;
      nodeValues := from.nodeValues;
      if from.store == null {
        var t := from.thenStore.Copy();
        var e := from.elseStore.Copy();
        store, thenStore, elseStore := null, t, e;
      } else {
        var s := from.store.Copy();
        store, thenStore, elseStore := s, null, null;
      }
    }

    /** copy(): an exact copy, built by the copy constructor. */
    method Copy() returns (c: TransferInput<H, Q>)
      requires Valid()
      ensures fresh(c) && c.Valid() && c.lattice == lattice && c.nodeValues == nodeValues
      ensures c.Abstract() == Abstract() && (c.store == null) == (store == null)
      ensures c.store != null ==> fresh(c.store)
      ensures c.store == null ==> fresh(c.thenStore) && fresh(c.elseStore)
    {
      c := new TransferInput.CopyOf(this);
    }

    /** getRegularStore: a new join of the two branch stores, or the regular store itself. */
    method GetRegularStore() returns (r: NullnessStore<H, Q>)
      requires Valid()
      ensures r.Valid() && r.lattice == lattice
      ensures r.State() == RegularView(lattice, Abstract())
      ensures store != null ==> r == store
      ensures store == null ==> fresh(r)
    {
      if store == null {
        r := thenStore.LeastUpperBound(elseStore);
      } else {
        r := store;
      }
    }

    /** getThenStore: the then-store of a split input, or the regular store itself. */
    function GetThenStore(): (r: NullnessStore<H, Q>)
      reads this, store, thenStore, elseStore
      requires Valid()
      ensures r.Valid() && r.State() == ThenView(Abstract())
      ensures r == if store == null then thenStore else store
    {
      if store == null then thenStore else store
    }

    /**
     * getElseStore: the else-store of a split input; for a unified input a new
     * object equal to the regular store but distinct from it, so that it can
     * be changed independently of what getThenStore returned.
     */
    method GetElseStore() returns (r: NullnessStore<H, Q>)
      requires Valid()
      ensures r.Valid() && r.lattice == lattice
      ensures r.State() == ElseView(Abstract())
      ensures store == null ==> r == elseStore
      ensures store != null ==> fresh(r) && r != store
    {
      if store == null {
        r := elseStore;
      } else {
        r := store.Copy();
      }
    }

    /** containsTwoStores: true exactly when the input is split. */
    function ContainsTwoStores(): (r: bool)
      reads this, store, thenStore, elseStore
      requires Valid()
      ensures r <==> store == null
      ensures r <==> Abstract().Split?
    {
      thenStore != null && elseStore != null
    }

    /**
     * leastUpperBound: a new input holding the join. When this input is
     * unified and the other split, the result is the other's join with this
     * one, and so carries the other's node values.
     */
    method LeastUpperBound(other: TransferInput<H, Q>) returns (res: TransferInput<H, Q>)
      requires Valid() && other.Valid() && other.lattice == lattice
      ensures fresh(res) && res.Valid() && res.lattice == lattice
      ensures res.Abstract() == InputJoin(lattice, Abstract(), other.Abstract())
      ensures res.ContainsTwoStores() <==> ContainsTwoStores() || other.ContainsTwoStores()
      ensures res.nodeValues == if store != null && other.store == null then other.nodeValues else nodeValues
      decreases if store == null then 0 else 1
    {
      if store == null {
        var otherThen := other.GetThenStore();
        var newThen := thenStore.LeastUpperBound(otherThen);
        var otherElse := other.GetElseStore();
        var newElse := elseStore.LeastUpperBound(otherElse);
        res := new TransferInput.FromStores(nodeValues, newThen, newElse);
      } else {
        if other.store == null {
          res := other.LeastUpperBound(this);
          return;
        }
        var otherRegular := other.GetRegularStore();
        var joined := store.LeastUpperBound(otherRegular);
        res := new TransferInput.FromStore(nodeValues, joined);
      }
    }
  }
}
