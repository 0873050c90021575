// Contract, override and assignment checking of the base type visitor,
// without the compiler plumbing. A contract is a pair of a flow expression
// (here its parsed receiver, kept as a string) and a required qualifier; a
// store maps receivers to the qualifiers inferred for them. The checker's
// diagnostics are returned as multisets of reports: their order carries no
// meaning, their number does.
//
// The full type hierarchy on annotated types (TypeHierarchy.isSubtype) is a
// parameter `typeSubtype`; the qualifier hierarchy is a Lattice.Hierarchy.

module Contracts {
  import opened Lattice

  datatype Option<T> = None | Some(value: T)

  type Receiver = string

  datatype Contract<Q> = Contract(expr: Receiver, anno: Q)

  /** A conditional postcondition: the qualifier holds when the method returns `result`. */
  datatype CondPost<Q> = CondPost(expr: Receiver, result: bool, anno: Q)

  datatype Detail<Q> = NoDetail | AtParam(index: nat) | OnContract(contract: Contract<Q>) | AtReturn(index: nat, contract: Contract<Q>)

  datatype Report<Q> = Report(key: string, detail: Detail<Q>)

  type Store<H(==, !new), Q(==, !new)> = map<Receiver, Annos<H, Q>>

  const PreconditionKey := "contracts.precondition.not.satisfied"
  const PostconditionKey := "contracts.postcondition.not.satisfied"
  const CondPostconditionKey := "contracts.conditional.postcondition.not.satisfied"
  const CondReturnTypeKey := "contracts.conditional.postcondition.invalid.returntype"

  // ---------------------------------------------------------------------
  // checkContract.

  /** The qualifier a store infers for an expression in the hierarchy of q, if any. */
  function Inferred<H(==, !new), Q(==, !new)>(L: Hierarchy<H, Q>, store: Store<H, Q>, e: Receiver, q: Q): (r: Option<Q>)
    ensures r.Some? <==> e in store && L.hierarchyOf(q) in store[e]
    ensures r.Some? ==> r.value == store[e][L.hierarchyOf(q)]
  {
    if e in store && L.hierarchyOf(q) in store[e] then Some(store[e][L.hierarchyOf(q)]) else None
  }

  /** checkContract: an inferred qualifier exists and lies below the necessary one. */
  predicate CheckContract<H(==, !new), Q(==, !new)>(L: Hierarchy<H, Q>, necessary: Q, inferred: Option<Q>)
  {
    inferred.Some? && L.isSubtype(inferred.value, necessary)
  }

  /** A store satisfies a contract. */
  predicate Satisfies<H(==, !new), Q(==, !new)>(L: Hierarchy<H, Q>, store: Store<H, Q>, c: Contract<Q>)
  {
    CheckContract(L, c.anno, Inferred(L, store, c.expr, c.anno))
  }

  /**
   * A contract fails when nothing is inferred; a satisfied contract stays
   * satisfied when the store infers something more precise, and any weaker
   * requirement of the same hierarchy is satisfied too.
   */
  lemma CheckContractMonotone<H(!new), Q(!new)>(L: Hierarchy<H, Q>, necessary: Q, weaker: Q, inferred: Q, sharper: Q)
    requires L.Valid()
    ensures !CheckContract(L, necessary, None)
    ensures CheckContract(L, necessary, Some(inferred)) && L.isSubtype(sharper, inferred) ==> CheckContract(L, necessary, Some(sharper))
    ensures CheckContract(L, necessary, Some(inferred)) && L.isSubtype(necessary, weaker) ==> CheckContract(L, weaker, Some(inferred))
  {
  }

  // ---------------------------------------------------------------------
  // Preconditions at a call site.

  /** The intended check: every supported, unsatisfied precondition is reported. */
  function PreconditionReports<H(==, !new), Q(==, !new)>(L: Hierarchy<H, Q>, supported: Q -> bool, pre: seq<Contract<Q>>, store: Store<H, Q>)
    : multiset<Report<Q>>
  {
    if pre == [] then multiset{}
    else PreconditionReport(L, supported, pre[0], store) + PreconditionReports(L, supported, pre[1..], store)
  }

  /** The report, if any, for one precondition. */
  function PreconditionReport<H(==, !new), Q(==, !new)>(L: Hierarchy<H, Q>, supported: Q -> bool, c: Contract<Q>, store: Store<H, Q>)
    : multiset<Report<Q>>
  {
    if supported(c.anno) && !Satisfies(L, store, c) then multiset{Report(PreconditionKey, OnContract(c))} else multiset{}
  }

  /** The reports of a suffix: its first precondition's report, then the rest's. */
  lemma PreconditionReportsStep<H(!new), Q(!new)>(L: Hierarchy<H, Q>, supported: Q -> bool, pre: seq<Contract<Q>>, store: Store<H, Q>, i: nat)
    requires i < |pre|
    ensures PreconditionReports(L, supported, pre[i..], store)
            == PreconditionReport(L, supported, pre[i], store) + PreconditionReports(L, supported, pre[i + 1..], store)
  {
    assert pre[i..][1..] == pre[i + 1..];
  }

  /** The check as written: the first unsupported precondition ends it. */
  function PreconditionReportsAsWritten<H(==, !new), Q(==, !new)>(L: Hierarchy<H, Q>, supported: Q -> bool, pre: seq<Contract<Q>>, store: Store<H, Q>)
    : multiset<Report<Q>>
  {
    if pre == [] || !supported(pre[0].anno) then multiset{}
    else
      (if !Satisfies(L, store, pre[0]) then multiset{Report(PreconditionKey, OnContract(pre[0]))} else multiset{})
      + PreconditionReportsAsWritten(L, supported, pre[1..], store)
  }

  /** checkPreconditions as written, iterating the preconditions in the order given. */
  method CheckPreconditionsAsWritten<H(==, !new), Q(==, !new)>(L: Hierarchy<H, Q>, supported: Q -> bool, pre: seq<Contract<Q>>, store: Store<H, Q>)
    returns (reports: multiset<Report<Q>>)
    ensures reports == PreconditionReportsAsWritten(L, supported, pre, store)
  {
    reports := multiset{};
    var i := 0;
    while i < |pre|
      invariant 0 <= i <= |pre|
      invariant reports + PreconditionReportsAsWritten(L, supported, pre[i..], store) == PreconditionReportsAsWritten(L, supported, pre, store)
    {
      assert pre[i..][1..] == pre[i + 1..];
      var c := pre[i];
      if !supported(c.anno) {
        return;
      }
      var inferred := Inferred(L, store, c.expr, c.anno);
      if !CheckContract(L, c.anno, inferred) {
        reports := reports + multiset{Report(PreconditionKey, OnContract(c))};
      }
      i := i + 1;
    }
  }

  /** checkPreconditions with the evidently intended `continue`. */
  method CheckPreconditions<H(==, !new), Q(==, !new)>(L: Hierarchy<H, Q>, supported: Q -> bool, pre: seq<Contract<Q>>, store: Store<H, Q>)
    returns (reports: multiset<Report<Q>>)
    ensures reports == PreconditionReports(L, supported, pre, store)
  {
    reports := multiset{};
    var i := 0;
    while i < |pre|
      invariant 0 <= i <= |pre|
      invariant reports + PreconditionReports(L, supported, pre[i..], store) == PreconditionReports(L, supported, pre, store)
    {
      PreconditionReportsStep(L, supported, pre, store, i);
      var found := CheckPrecondition(L, supported, pre[i], store);
      reports := reports + found;
      i := i + 1;
    }
  }

  /** The check of one precondition at a call site: a report when it is supported and not satisfied. */
  method CheckPrecondition<H(==, !new), Q(==, !new)>(L: Hierarchy<H, Q>, supported: Q -> bool, c: Contract<Q>, store: Store<H, Q>)
    returns (found: multiset<Report<Q>>)
    ensures found == PreconditionReport(L, supported, c, store)
  {
    found := multiset{};
    if supported(c.anno) {
      var inferred := Inferred(L, store, c.expr, c.anno);
      if !CheckContract(L, c.anno, inferred) {
        found := multiset{Report(PreconditionKey, OnContract(c))};
      }
    }
  }

  /** Every report is about a precondition, and each supported unsatisfied one is reported as often as it occurs. */
  lemma PreconditionReportsSpec<H(!new), Q(!new)>(L: Hierarchy<H, Q>, supported: Q -> bool, pre: seq<Contract<Q>>,
                                                  store: Store<H, Q>, c: Contract<Q>)
    ensures PreconditionReports(L, supported, pre, store)[Report(PreconditionKey, OnContract(c))] ==
              if supported(c.anno) && !Satisfies(L, store, c) then multiset(pre)[c] else 0
    ensures forall r :: r in PreconditionReports(L, supported, pre, store) ==> r.key == PreconditionKey && r.detail.OnContract?
  {
    PreconditionReportsCount(L, supported, pre, store, c);
    PreconditionReportsKeys(L, supported, pre, store);
  }

  lemma {:induction false} PreconditionReportsCount<H(!new), Q(!new)>(L: Hierarchy<H, Q>, supported: Q -> bool, pre: seq<Contract<Q>>,
                                                                     store: Store<H, Q>, c: Contract<Q>)
    ensures PreconditionReports(L, supported, pre, store)[Report(PreconditionKey, OnContract(c))] ==
              if supported(c.anno) && !Satisfies(L, store, c) then multiset(pre)[c] else 0
  {
    if pre != [] {
      PreconditionReportsCount(L, supported, pre[1..], store, c);
      assert pre == [pre[0]] + pre[1..];
    }
  }

  lemma {:induction false} PreconditionReportsKeys<H(!new), Q(!new)>(L: Hierarchy<H, Q>, supported: Q -> bool, pre: seq<Contract<Q>>,
                                                                    store: Store<H, Q>)
    ensures forall r :: r in PreconditionReports(L, supported, pre, store) ==> r.key == PreconditionKey && r.detail.OnContract?
  {
    if pre != [] {
      PreconditionReportsKeys(L, supported, pre[1..], store);
    }
  }

  /** The length of the longest prefix whose qualifiers are all supported. */
  function FirstUnsupported<Q>(supported: Q -> bool, pre: seq<Contract<Q>>): (n: nat)
    ensures n <= |pre|
    ensures forall i :: 0 <= i < n ==> supported(pre[i].anno)
    ensures n < |pre| ==> !supported(pre[n].anno)
  {
    if pre == [] || !supported(pre[0].anno) then 0 else 1 + FirstUnsupported(supported, pre[1..])
  }

  /** As written, the check is the intended one restricted to the preconditions before the first unsupported one. */
  lemma {:induction false} AsWrittenChecksOnlyPrefix<H(!new), Q(!new)>(L: Hierarchy<H, Q>, supported: Q -> bool, pre: seq<Contract<Q>>, store: Store<H, Q>)
    ensures PreconditionReportsAsWritten(L, supported, pre, store) ==
              PreconditionReports(L, supported, pre[..FirstUnsupported(supported, pre)], store)
  {
    var n := FirstUnsupported(supported, pre);
    if pre == [] || !supported(pre[0].anno) {
      assert pre[..n] == [];
    } else {
      AsWrittenChecksOnlyPrefix(L, supported, pre[1..], store);
      assert pre[..n][1..] == pre[1..][..n - 1];
    }
  }

  /**
   * An unsupported precondition listed first hides an unsatisfied supported
   * one: the code as written reports nothing, the intended check reports it.
   */
  lemma UnsupportedFirstHidesViolation<H(!new), Q(!new)>(L: Hierarchy<H, Q>, supported: Q -> bool, u: Q, q: Q, e0: Receiver, e: Receiver)
    requires !supported(u) && supported(q)
    ensures PreconditionReportsAsWritten(L, supported, [Contract(e0, u), Contract(e, q)], map[]) == multiset{}
    ensures PreconditionReports(L, supported, [Contract(e0, u), Contract(e, q)], map[]) == multiset{Report(PreconditionKey, OnContract(Contract(e, q)))}
  {
    var pre := [Contract(e0, u), Contract(e, q)];
    assert pre[1..] == [Contract(e, q)];
    assert pre[1..][1..] == [];
    assert !Satisfies(L, map[], Contract(e, q));
    assert PreconditionReports(L, supported, pre[1..][1..], map[]) == multiset{};
    assert PreconditionReports(L, supported, pre[1..], map[]) == multiset{Report(PreconditionKey, OnContract(Contract(e, q)))};
  }

  // ---------------------------------------------------------------------
  // Postconditions at the regular exit.

  function PostconditionReports<H(==, !new), Q(==, !new)>(L: Hierarchy<H, Q>, supported: Q -> bool, post: seq<Contract<Q>>, exitStore: Option<Store<H, Q>>)
    : multiset<Report<Q>>
  {
    if post == [] || exitStore.None? then multiset{}
    else
      (if supported(post[0].anno) && !Satisfies(L, exitStore.value, post[0]) then multiset{Report(PostconditionKey, OnContract(post[0]))} else multiset{})
      + PostconditionReports(L, supported, post[1..], exitStore)
  }

  /** checkPostconditions: without a regular exit store nothing is checked. */
  method CheckPostconditions<H(==, !new), Q(==, !new)>(L: Hierarchy<H, Q>, supported: Q -> bool, post: seq<Contract<Q>>, exitStore: Option<Store<H, Q>>)
    returns (reports: multiset<Report<Q>>)
    ensures reports == PostconditionReports(L, supported, post, exitStore)
  {
    reports := multiset{};
    var i := 0;
    while i < |post|
      invariant 0 <= i <= |post|
      invariant reports + PostconditionReports(L, supported, post[i..], exitStore) == PostconditionReports(L, supported, post, exitStore)
    {
      assert post[i..][1..] == post[i + 1..];
      var c := post[i];
      if supported(c.anno) && exitStore.Some? {
        var inferred := Inferred(L, exitStore.value, c.expr, c.anno);
        if !CheckContract(L, c.anno, inferred) {
          reports := reports + multiset{Report(PostconditionKey, OnContract(c))};
        }
      }
      i := i + 1;
    }
  }

  /** A postcondition is reported exactly when the method can exit normally and the exit store does not satisfy it. */
  lemma {:induction false} PostconditionReportsSpec<H(!new), Q(!new)>(L: Hierarchy<H, Q>, supported: Q -> bool, post: seq<Contract<Q>>,
                                                                     exitStore: Option<Store<H, Q>>, c: Contract<Q>)
    ensures Report(PostconditionKey, OnContract(c)) in PostconditionReports(L, supported, post, exitStore) <==>
              c in post && supported(c.anno) && exitStore.Some? && !Satisfies(L, exitStore.value, c)
  {
    if post != [] && exitStore.Some? {
      PostconditionReportsSpec(L, supported, post[1..], exitStore, c);
      assert post == [post[0]] + post[1..];
    }
  }

  // ---------------------------------------------------------------------
  // Conditional postconditions at return statements.

  /** A return statement: its then and else stores (none when unreachable) and its boolean literal, if it returns one. */
  datatype ReturnSite<H(==, !new), Q(==, !new)> = ReturnSite(stores: Option<(Store<H, Q>, Store<H, Q>)>, literal: Option<bool>)

  /** The store a conditional postcondition is checked against at a return, if it is checked there. */
  function CondStore<H(==, !new), Q(==, !new)>(site: ReturnSite<H, Q>, result: bool): Option<Store<H, Q>>
  {
    if site.stores.None? || (site.literal.Some? && site.literal.value != result) then None
    else Some(if result then site.stores.value.0 else site.stores.value.1)
  }

  /** The then store for `result = true`, the else store for false; skipped when unreachable or the literal differs. */
  lemma CondStoreSpec<H(!new), Q(!new)>(site: ReturnSite<H, Q>, result: bool)
    ensures CondStore(site, result).None? <==> site.stores.None? || site.literal == Some(!result)
    ensures CondStore(site, result).Some? && result ==> CondStore(site, result).value == site.stores.value.0
    ensures CondStore(site, result).Some? && !result ==> CondStore(site, result).value == site.stores.value.1
  {
  }

  function SiteReports<H(==, !new), Q(==, !new)>(L: Hierarchy<H, Q>, c: CondPost<Q>, sites: seq<ReturnSite<H, Q>>): multiset<Report<Q>>
  {
    if sites == [] then multiset{}
    else
      var i := |sites| - 1;
      SiteReports(L, c, sites[..i]) + SiteReport(L, c, sites[i], i)
  }

  /** The report, if any, for the return site with index i. */
  function SiteReport<H(==, !new), Q(==, !new)>(L: Hierarchy<H, Q>, c: CondPost<Q>, site: ReturnSite<H, Q>, i: nat): multiset<Report<Q>>
  {
    var st := CondStore(site, c.result);
    if st.Some? && !Satisfies(L, st.value, Contract(c.expr, c.anno))
    then multiset{Report(CondPostconditionKey, AtReturn(i, Contract(c.expr, c.anno)))} else multiset{}
  }

  /** One more return site adds that site's report. */
  lemma SiteReportsSnoc<H(!new), Q(!new)>(L: Hierarchy<H, Q>, c: CondPost<Q>, sites: seq<ReturnSite<H, Q>>, i: nat)
    requires i < |sites|
    ensures SiteReports(L, c, sites[..i + 1]) == SiteReports(L, c, sites[..i]) + SiteReport(L, c, sites[i], i)
  {
    assert sites[..i + 1][..i] == sites[..i];
  }

  /** A return is reported exactly when the postcondition is checked there and its store does not satisfy it. */
  lemma {:induction false} SiteReportsSpec<H(!new), Q(!new)>(L: Hierarchy<H, Q>, c: CondPost<Q>, sites: seq<ReturnSite<H, Q>>, i: nat)
    ensures Report(CondPostconditionKey, AtReturn(i, Contract(c.expr, c.anno))) in SiteReports(L, c, sites) <==>
              i < |sites| && CondStore(sites[i], c.result).Some? && !Satisfies(L, CondStore(sites[i], c.result).value, Contract(c.expr, c.anno))
    ensures forall r :: r in SiteReports(L, c, sites) ==> r.detail.AtReturn? && r.detail.index < |sites|
  {
    if sites != [] {
      SiteReportsSpec(L, c, sites[..|sites| - 1], i);
      if i < |sites| - 1 {
        assert sites[..|sites| - 1][i] == sites[i];
      }
    }
  }

  method CheckAtReturns<H(==, !new), Q(==, !new)>(L: Hierarchy<H, Q>, c: CondPost<Q>, sites: seq<ReturnSite<H, Q>>)
    returns (reports: multiset<Report<Q>>)
    ensures reports == SiteReports(L, c, sites)
  {
    reports := multiset{};
    var i := 0;
    while i < |sites|
      invariant 0 <= i <= |sites|
      invariant reports == SiteReports(L, c, sites[..i])
    {
      SiteReportsSnoc(L, c, sites, i);
      var found := CheckAtReturn(L, c, sites[i], i);
      reports := reports + found;
      i := i + 1;
    }
    assert sites[..i] == sites;
  }

  /** The check at one return statement: the report for return index i, if the postcondition fails there. */
  method CheckAtReturn<H(==, !new), Q(==, !new)>(L: Hierarchy<H, Q>, c: CondPost<Q>, site: ReturnSite<H, Q>, i: nat)
    returns (found: multiset<Report<Q>>)
    ensures found == SiteReport(L, c, site, i)
  {
    found := multiset{};
    if site.stores.Some? {
      var exitStore := if c.result then site.stores.value.0 else site.stores.value.1;
      if site.literal.None? || site.literal.value == c.result {
        var inferred := Inferred(L, exitStore, c.expr, c.anno);
        if !CheckContract(L, c.anno, inferred) {
          found := multiset{Report(CondPostconditionKey, AtReturn(i, Contract(c.expr, c.anno)))};
        }
      }
    }
  }

  function CondPostReports<H(==, !new), Q(==, !new)>(L: Hierarchy<H, Q>, supported: Q -> bool, cposts: seq<CondPost<Q>>,
                                                      booleanReturn: bool, sites: seq<ReturnSite<H, Q>>): multiset<Report<Q>>
  {
    if cposts == [] then multiset{}
    else
      (if !supported(cposts[0].anno) then multiset{}
       else if !booleanReturn then multiset{Report(CondReturnTypeKey, NoDetail)}
       else SiteReports(L, cposts[0], sites))
      + CondPostReports(L, supported, cposts[1..], booleanReturn, sites)
  }

  /** checkConditionalPostconditions: a non-boolean method gets one return-type report per supported conditional postcondition. */
  method CheckConditionalPostconditions<H(==, !new), Q(==, !new)>(L: Hierarchy<H, Q>, supported: Q -> bool, cposts: seq<CondPost<Q>>,
                                                                  booleanReturn: bool, sites: seq<ReturnSite<H, Q>>)
    returns (reports: multiset<Report<Q>>)
    ensures reports == CondPostReports(L, supported, cposts, booleanReturn, sites)
  {
    reports := multiset{};
    var i := 0;
    while i < |cposts|
      invariant 0 <= i <= |cposts|
      invariant reports + CondPostReports(L, supported, cposts[i..], booleanReturn, sites) == CondPostReports(L, supported, cposts, booleanReturn, sites)
    {
      assert cposts[i..][1..] == cposts[i + 1..];
      var c := cposts[i];
      if supported(c.anno) {
        if !booleanReturn {
          reports := reports + multiset{Report(CondReturnTypeKey, NoDetail)};
        } else {
          var atReturns := CheckAtReturns(L, c, sites);
          reports := reports + atReturns;
        }
      }
      i := i + 1;
    }
  }

  /** On a method that does not return boolean, no return statement is ever examined. */
  lemma {:induction false} NonBooleanOnlyReturnTypeReports<H(!new), Q(!new)>(L: Hierarchy<H, Q>, supported: Q -> bool, cposts: seq<CondPost<Q>>,
                                                                           sites: seq<ReturnSite<H, Q>>)
    ensures forall r :: r in CondPostReports(L, supported, cposts, false, sites) ==> r == Report(CondReturnTypeKey, NoDetail)
    ensures |CondPostReports(L, supported, cposts, false, sites)| <= |cposts|
  {
    if cposts != [] {
      NonBooleanOnlyReturnTypeReports(L, supported, cposts[1..], sites);
    }
  }

  // ---------------------------------------------------------------------
  // checkContractsSubset and the conditional-postcondition filter.

  /** The requirement `a` is covered by a contract of `s` on the same receiver whose qualifier relates by `rel`. */
  predicate CoveredBy<Q(==)>(rel: (Q, Q) -> bool, a: Contract<Q>, s: set<Contract<Q>>)
  {
    exists b :: b in s && b.expr == a.expr && rel(a.anno, b.anno)
  }

  function Uncovered<Q(==)>(rel: (Q, Q) -> bool, mustSubset: set<Contract<Q>>, s: set<Contract<Q>>): set<Contract<Q>>
  {
    set a | a in mustSubset && !CoveredBy(rel, a, s)
  }

  /** The relation the code tests: the required qualifier lies below the one found. */
  function AsWrittenRel<H(==, !new), Q(==, !new)>(L: Hierarchy<H, Q>): (Q, Q) -> bool
  {
    (a: Q, b: Q) => L.isSubtype(a, b)
  }

  /** The documented relation: the qualifier found is the same or stronger. */
  function StrongerRel<H(==, !new), Q(==, !new)>(L: Hierarchy<H, Q>): (Q, Q) -> bool
  {
    (a: Q, b: Q) => L.isSubtype(b, a)
  }

  /** The inner loop: look for a covering contract, stopping at the first. */
  method FindCover<Q(==)>(rel: (Q, Q) -> bool, a: Contract<Q>, s: set<Contract<Q>>) returns (found: bool)
    ensures found <==> CoveredBy(rel, a, s)
  {
    found := false;
    var todo := s;
    while todo != {}
      invariant todo <= s
      invariant !found
      invariant forall b :: b in s - todo ==> !(b.expr == a.expr && rel(a.anno, b.anno))
      decreases |todo|
    {
      var b :| b in todo;
      if b.expr == a.expr && rel(a.anno, b.anno) {
        found := true;
        return;
      }
      todo := todo - {b};
    }
  }

  /** checkContractsSubset: one report under `key` for each uncovered requirement. */
  method CheckContractsSubset<Q(==)>(rel: (Q, Q) -> bool, mustSubset: set<Contract<Q>>, s: set<Contract<Q>>, key: string)
    returns (reports: multiset<Report<Q>>)
    ensures reports == SubsetReports(rel, mustSubset, s, key)
  {
    reports := multiset{};
    var todo := mustSubset;
    ghost var done: set<Contract<Q>> := {};
    while todo != {}
      invariant todo <= mustSubset && done == mustSubset - todo
      invariant reports == SubsetReports(rel, done, s, key)
      decreases |todo|
    {
      var a :| a in todo;
      var found := FindCover(rel, a, s);
      SubsetReportsStep(rel, done, a, s, key);
      if !found {
        reports := reports + multiset{Report(key, OnContract(a))};
      }
      todo := todo - {a};
      done := done + {a};
    }
    assert done == mustSubset;
  }

  /** Checking one more required contract adds its report exactly when it has no cover. */
  lemma SubsetReportsStep<Q>(rel: (Q, Q) -> bool, done: set<Contract<Q>>, a: Contract<Q>, s: set<Contract<Q>>, key: string)
    requires a !in done
    ensures SubsetReports(rel, done + {a}, s, key)
            == SubsetReports(rel, done, s, key) + (if CoveredBy(rel, a, s) then multiset{} else multiset{Report(key, OnContract(a))})
  {
    var before := set x | x in Uncovered(rel, done, s) :: Report(key, OnContract(x));
    var after := set x | x in Uncovered(rel, done + {a}, s) :: Report(key, OnContract(x));
    if !CoveredBy(rel, a, s) {
      assert after == before + {Report(key, OnContract(a))};
      assert Report(key, OnContract(a)) !in before;
    } else {
      assert after == before;
    }
  }

  /** filterConditionalPostconditions: the entries guarded by `b`, without the flag. */
  method FilterConditionalPostconditions<Q(==)>(cposts: set<CondPost<Q>>, b: bool) returns (result: set<Contract<Q>>)
    ensures forall c :: c in result <==> CondPost(c.expr, b, c.anno) in cposts
  {
    result := {};
    var todo := cposts;
    while todo != {}
      invariant todo <= cposts
      invariant forall c :: c in result <==> CondPost(c.expr, b, c.anno) in cposts - todo
      decreases |todo|
    {
      var p :| p in todo;
      if p.result == b {
        result := result + {Contract(p.expr, p.anno)};
      }
      todo := todo - {p};
    }
  }

  /** The set filterConditionalPostconditions computes. */
  function Guarded<Q(==)>(cposts: set<CondPost<Q>>, b: bool): set<Contract<Q>>
  {
    set p | p in cposts && p.result == b :: Contract(p.expr, p.anno)
  }

  /** The two filters split the conditional postconditions by their flag, losing none. */
  lemma GuardedPartition<Q>(cposts: set<CondPost<Q>>, c: Contract<Q>)
    ensures c in Guarded(cposts, true) <==> CondPost(c.expr, true, c.anno) in cposts
    ensures c in Guarded(cposts, false) <==> CondPost(c.expr, false, c.anno) in cposts
    ensures forall p :: p in cposts ==> Contract(p.expr, p.anno) in Guarded(cposts, p.result)
  {
    if CondPost(c.expr, true, c.anno) in cposts {
      assert Contract(c.expr, c.anno) == c;
    }
    if CondPost(c.expr, false, c.anno) in cposts {
      assert Contract(c.expr, c.anno) == c;
    }
  }

  /**
   * Covered under the documented relation means behavioural subtyping: a
   * store satisfying the covering contracts satisfies every covered one.
   * For postconditions the overrider's contracts cover the overridden
   * method's; for preconditions the overridden method's cover the overrider's.
   */
  lemma CoverageIsImplication<H(!new), Q(!new)>(L: Hierarchy<H, Q>, mustSubset: set<Contract<Q>>, s: set<Contract<Q>>, store: Store<H, Q>)
    requires L.Valid() && Uncovered(StrongerRel(L), mustSubset, s) == {}
    requires forall b :: b in s ==> Satisfies(L, store, b)
    ensures forall a :: a in mustSubset ==> Satisfies(L, store, a)
  {
    forall a | a in mustSubset ensures Satisfies(L, store, a) {
      assert a !in Uncovered(StrongerRel(L), mustSubset, s);
      var b :| b in s && b.expr == a.expr && L.isSubtype(b.anno, a.anno);
      assert L.hierarchyOf(b.anno) == L.hierarchyOf(a.anno);
    }
  }

  /**
   * The relation the code tests points the other way: with a strictly
   * stronger qualifier `strong` below `weak`, an overrider that weakens the
   * postcondition to `weak` passes although a store can satisfy its
   * postcondition and not the overridden one, and an overrider that
   * strengthens it to `strong` is reported.
   */
  lemma SubsetDirectionAsWritten<H(!new), Q(!new)>(L: Hierarchy<H, Q>, e: Receiver, strong: Q, weak: Q)
    requires L.Valid() && L.isSubtype(strong, weak) && !L.isSubtype(weak, strong)
    ensures Uncovered(AsWrittenRel(L), {Contract(e, strong)}, {Contract(e, weak)}) == {}
    ensures var store := map[e := map[L.hierarchyOf(weak) := weak]];
            Satisfies(L, store, Contract(e, weak)) && !Satisfies(L, store, Contract(e, strong))
    ensures Uncovered(AsWrittenRel(L), {Contract(e, weak)}, {Contract(e, strong)}) == {Contract(e, weak)}
    ensures Uncovered(StrongerRel(L), {Contract(e, weak)}, {Contract(e, strong)}) == {}
  {
    assert CoveredBy(AsWrittenRel(L), Contract(e, strong), {Contract(e, weak)});
    assert L.hierarchyOf(strong) == L.hierarchyOf(weak);
    assert CoveredBy(StrongerRel(L), Contract(e, weak), {Contract(e, strong)});
  }

  // ---------------------------------------------------------------------
  // checkOverride.

  datatype PurityKind = Deterministic | SideEffectFree

  /** What checkOverride reads of a method: its types, its contracts and its purity. */
  datatype MethodSig<T, Q(==)> = MethodSig(returnType: Option<T>, params: seq<T>, receiver: T,
                                       pre: set<Contract<Q>>, post: set<Contract<Q>>, condPost: set<CondPost<Q>>,
                                       purity: set<PurityKind>)

  /** Return covariance (checked for a non-void overrider) and parameter and receiver contravariance. */
  predicate OverrideTypesOk<T, Q(==)>(typeSubtype: (T, T) -> bool, overrider: MethodSig<T, Q>, overridden: MethodSig<T, Q>)
    requires |overrider.params| <= |overridden.params|
    requires overrider.returnType.Some? ==> overridden.returnType.Some?
  {
    && (overrider.returnType.Some? ==> typeSubtype(overrider.returnType.value, overridden.returnType.value))
    && (forall i :: 0 <= i < |overrider.params| ==> typeSubtype(overridden.params[i], overrider.params[i]))
    && typeSubtype(overridden.receiver, overrider.receiver)
  }

  function ParamReports<T, Q(==)>(typeSubtype: (T, T) -> bool, overriderParams: seq<T>, overriddenParams: seq<T>): multiset<Report<Q>>
    requires |overriderParams| <= |overriddenParams|
  {
    if overriderParams == [] then multiset{}
    else
      var i := |overriderParams| - 1;
      ParamReports(typeSubtype, overriderParams[..i], overriddenParams)
      + (if typeSubtype(overriddenParams[i], overriderParams[i]) then multiset{} else multiset{Report("override.param.invalid", AtParam(i))})
  }

  function TypeReports<T, Q(==)>(typeSubtype: (T, T) -> bool, overrider: MethodSig<T, Q>, overridden: MethodSig<T, Q>): multiset<Report<Q>>
    requires |overrider.params| <= |overridden.params|
    requires overrider.returnType.Some? ==> overridden.returnType.Some?
  {
    (if overrider.returnType.Some? && !typeSubtype(overrider.returnType.value, overridden.returnType.value)
     then multiset{Report("override.return.invalid", NoDetail)} else multiset{})
    + ParamReports(typeSubtype, overrider.params, overridden.params)
    + (if typeSubtype(overridden.receiver, overrider.receiver) then multiset{} else multiset{Report("override.receiver.invalid", NoDetail)})
  }

  function SubsetReports<Q(==)>(rel: (Q, Q) -> bool, mustSubset: set<Contract<Q>>, s: set<Contract<Q>>, key: string): multiset<Report<Q>>
  {
    multiset(set a | a in Uncovered(rel, mustSubset, s) :: Report(key, OnContract(a)))
  }

  /**
   * The contract and purity reports of checkOverride under the coverage
   * relation `rel`: the code's is AsWrittenRel, the documented one StrongerRel.
   */
  function ContractReports<Q(==), T>(rel: (Q, Q) -> bool, overrider: MethodSig<T, Q>, overridden: MethodSig<T, Q>): multiset<Report<Q>>
  {
    SubsetReports(rel, overridden.post, overrider.post, "contracts.postcondition.override.invalid")
    + SubsetReports(rel, overrider.pre, overridden.pre, "contracts.precondition.override.invalid")
    + SubsetReports(rel, Guarded(overridden.condPost, true), Guarded(overrider.condPost, true),
                    "contracts.conditional.postcondition.true.override.invalid")
    + SubsetReports(rel, Guarded(overridden.condPost, false), Guarded(overrider.condPost, false),
                    "contracts.conditional.postcondition.false.override.invalid")
    + (if overridden.purity <= overrider.purity then multiset{} else multiset{Report("purity.invalid.overriding", NoDetail)})
  }

  /** The parameter loop: each overridden parameter type must be a subtype of the overrider's. */
  method CheckParams<T, Q(==)>(typeSubtype: (T, T) -> bool, overriderParams: seq<T>, overriddenParams: seq<T>)
    returns (ok: bool, reports: multiset<Report<Q>>)
    requires |overriderParams| <= |overriddenParams|
    ensures ok <==> forall j :: 0 <= j < |overriderParams| ==> typeSubtype(overriddenParams[j], overriderParams[j])
    ensures reports == ParamReports(typeSubtype, overriderParams, overriddenParams)
  {
    ok := true;
    reports := multiset{};
    var i := 0;
    while i < |overriderParams|
      invariant 0 <= i <= |overriderParams|
      invariant reports == ParamReports(typeSubtype, overriderParams[..i], overriddenParams)
      invariant ok <==> forall j :: 0 <= j < i ==> typeSubtype(overriddenParams[j], overriderParams[j])
    {
      assert overriderParams[..i + 1][..i] == overriderParams[..i];
      if !typeSubtype(overriddenParams[i], overriderParams[i]) {
        reports := reports + multiset{Report("override.param.invalid", AtParam(i))};
        ok := false;
      }
      i := i + 1;
    }
    assert overriderParams[..i] == overriderParams;
  }

  method CheckOverrideTypes<T, Q(==)>(typeSubtype: (T, T) -> bool, overrider: MethodSig<T, Q>, overridden: MethodSig<T, Q>)
    returns (result: bool, reports: multiset<Report<Q>>)
    requires |overrider.params| <= |overridden.params|
    requires overrider.returnType.Some? ==> overridden.returnType.Some?
    ensures result <==> OverrideTypesOk(typeSubtype, overrider, overridden)
    ensures reports == TypeReports(typeSubtype, overrider, overridden)
  {
    result := true;
    reports := multiset{};
    if overrider.returnType.Some? {
      if !typeSubtype(overrider.returnType.value, overridden.returnType.value) {
        reports := reports + multiset{Report("override.return.invalid", NoDetail)};
        result := false;
      }
    }
    var paramsOk, paramReports := CheckParams(typeSubtype, overrider.params, overridden.params);
    reports := reports + paramReports;
    result := result && paramsOk;
    if !typeSubtype(overridden.receiver, overrider.receiver) {
      reports := reports + multiset{Report("override.receiver.invalid", NoDetail)};
      result := false;
    }
  }

  /**
   * checkOverride: the result covers the type checks only; contract and
   * purity violations are reported but leave it true. Uses are skipped for
   * classes the checker is told to skip. The contracts are compared under
   * `rel`: AsWrittenRel is what the code does, StrongerRel what it documents.
   */
  method CheckOverride<Q(==), T>(rel: (Q, Q) -> bool, typeSubtype: (T, T) -> bool, skipUses: bool,
                                                     overrider: MethodSig<T, Q>, overridden: MethodSig<T, Q>)
    returns (result: bool, reports: multiset<Report<Q>>)
    requires |overrider.params| <= |overridden.params|
    requires overrider.returnType.Some? ==> overridden.returnType.Some?
    ensures skipUses ==> result && reports == multiset{}
    ensures !skipUses ==> (result <==> OverrideTypesOk(typeSubtype, overrider, overridden))
    ensures !skipUses ==> reports == TypeReports(typeSubtype, overrider, overridden) + ContractReports(rel, overrider, overridden)
  {
    if skipUses {
      return true, multiset{};
    }
    result, reports := CheckOverrideTypes(typeSubtype, overrider, overridden);
    var contractReports := CheckOverrideContracts(rel, overrider, overridden);
    reports := reports + contractReports;
  }

  /** The contract and purity half of checkOverride. */
  method CheckOverrideContracts<Q(==), T>(rel: (Q, Q) -> bool, overrider: MethodSig<T, Q>, overridden: MethodSig<T, Q>)
    returns (reports: multiset<Report<Q>>)
    ensures reports == ContractReports(rel, overrider, overridden)
  {
    var r1 := CheckContractsSubset(rel, overridden.post, overrider.post, "contracts.postcondition.override.invalid");
    var r2 := CheckContractsSubset(rel, overrider.pre, overridden.pre, "contracts.precondition.override.invalid");
    var superTrue := FilterConditionalPostconditions(overridden.condPost, true);
    var subTrue := FilterConditionalPostconditions(overrider.condPost, true);
    GuardedEq(overridden.condPost, true, superTrue);
    GuardedEq(overrider.condPost, true, subTrue);
    var r3 := CheckContractsSubset(rel, superTrue, subTrue, "contracts.conditional.postcondition.true.override.invalid");
    var superFalse := FilterConditionalPostconditions(overridden.condPost, false);
    var subFalse := FilterConditionalPostconditions(overrider.condPost, false);
    GuardedEq(overridden.condPost, false, superFalse);
    GuardedEq(overrider.condPost, false, subFalse);
    var r4 := CheckContractsSubset(rel, superFalse, subFalse, "contracts.conditional.postcondition.false.override.invalid");
    reports := r1 + r2 + r3 + r4;
    if !(overridden.purity <= overrider.purity) {
      reports := reports + multiset{Report("purity.invalid.overriding", NoDetail)};
    }
  }

  lemma GuardedEq<Q>(cposts: set<CondPost<Q>>, b: bool, s: set<Contract<Q>>)
    requires forall c :: c in s <==> CondPost(c.expr, b, c.anno) in cposts
    ensures s == Guarded(cposts, b)
  {
    forall c | c in Guarded(cposts, b) ensures c in s {
      var p :| p in cposts && p.result == b && c == Contract(p.expr, p.anno);
    }
    forall c | c in s ensures c in Guarded(cposts, b) {
      assert Contract(c.expr, c.anno) == c;
    }
  }

  /** A parameter is reported exactly when it is not contravariant. */
  lemma {:induction false} ParamReportsSpec<T, Q>(typeSubtype: (T, T) -> bool, overriderParams: seq<T>, overriddenParams: seq<T>, i: nat)
    requires |overriderParams| <= |overriddenParams|
    ensures Report("override.param.invalid", AtParam(i)) in ParamReports<T, Q>(typeSubtype, overriderParams, overriddenParams) <==>
              i < |overriderParams| && !typeSubtype(overriddenParams[i], overriderParams[i])
  {
    if overriderParams != [] {
      var n := |overriderParams| - 1;
      ParamReportsSpec<T, Q>(typeSubtype, overriderParams[..n], overriddenParams, i);
      if i < n {
        assert overriderParams[..n][i] == overriderParams[i];
      }
    }
  }

  /**
   * An override without contract reports is a behavioural subtype: a store
   * satisfying the overrider's postconditions satisfies the overridden
   * method's, and one satisfying the overridden method's preconditions
   * satisfies the overrider's.
   */
  lemma CleanOverrideIsBehavioural<H(!new), Q(!new), T>(L: Hierarchy<H, Q>, overrider: MethodSig<T, Q>, overridden: MethodSig<T, Q>,
                                                        store: Store<H, Q>)
    requires L.Valid() && ContractReports(StrongerRel(L), overrider, overridden) == multiset{}
    ensures (forall b :: b in overrider.post ==> Satisfies(L, store, b)) ==> (forall a :: a in overridden.post ==> Satisfies(L, store, a))
    ensures (forall b :: b in overridden.pre ==> Satisfies(L, store, b)) ==> (forall a :: a in overrider.pre ==> Satisfies(L, store, a))
    ensures overridden.purity <= overrider.purity
  {
    var rel := StrongerRel(L);
    EmptyReports(rel, overridden.post, overrider.post, "contracts.postcondition.override.invalid");
    EmptyReports(rel, overrider.pre, overridden.pre, "contracts.precondition.override.invalid");
    if forall b :: b in overrider.post ==> Satisfies(L, store, b) {
      CoverageIsImplication(L, overridden.post, overrider.post, store);
    }
    if forall b :: b in overridden.pre ==> Satisfies(L, store, b) {
      CoverageIsImplication(L, overrider.pre, overridden.pre, store);
    }
  }

  /**
   * At the level of a whole override: an overrider that strengthens a
   * postcondition from `weak` to `strong` is reported under the code's
   * relation and passes under the documented one.
   */
  lemma OverrideDirectionAsWritten<H(!new), Q(!new), T>(L: Hierarchy<H, Q>, e: Receiver, strong: Q, weak: Q,
                                                        overrider: MethodSig<T, Q>, overridden: MethodSig<T, Q>)
    requires L.Valid() && L.isSubtype(strong, weak) && !L.isSubtype(weak, strong)
    requires overridden.post == {Contract(e, weak)} && overrider.post == {Contract(e, strong)}
    requires overrider.pre == {} && overridden.pre == {} && overrider.condPost == {} && overridden.condPost == {}
    requires overridden.purity <= overrider.purity
    ensures ContractReports(AsWrittenRel(L), overrider, overridden) ==
              multiset{Report("contracts.postcondition.override.invalid", OnContract(Contract(e, weak)))}
    ensures ContractReports(StrongerRel(L), overrider, overridden) == multiset{}
  {
    SubsetDirectionAsWritten(L, e, strong, weak);
    NoContractsNoReports(AsWrittenRel(L), overrider, overridden);
    NoContractsNoReports(StrongerRel(L), overrider, overridden);
    var key := "contracts.postcondition.override.invalid";
    var r := Report(key, OnContract(Contract(e, weak)));
    assert (set a | a in Uncovered(AsWrittenRel(L), overridden.post, overrider.post) :: Report(key, OnContract(a))) == {r};
  }

  /** Without preconditions and conditional postconditions only the postcondition check can report. */
  lemma NoContractsNoReports<Q, T>(rel: (Q, Q) -> bool, overrider: MethodSig<T, Q>, overridden: MethodSig<T, Q>)
    requires overrider.pre == {} && overridden.pre == {} && overrider.condPost == {} && overridden.condPost == {}
    requires overridden.purity <= overrider.purity
    ensures ContractReports(rel, overrider, overridden) ==
              SubsetReports(rel, overridden.post, overrider.post, "contracts.postcondition.override.invalid")
  {
    assert Guarded(overridden.condPost, true) == {} && Guarded(overridden.condPost, false) == {};
    assert Uncovered(rel, overrider.pre, overridden.pre) == {};
  }

  lemma EmptyReports<Q>(rel: (Q, Q) -> bool, mustSubset: set<Contract<Q>>, s: set<Contract<Q>>, key: string)
    requires SubsetReports(rel, mustSubset, s, key) == multiset{}
    ensures Uncovered(rel, mustSubset, s) == {}
  {
    var S := set a | a in Uncovered(rel, mustSubset, s) :: Report(key, OnContract(a));
    assert |multiset(S)| == 0;
    forall a | a in Uncovered(rel, mustSubset, s) ensures Report(key, OnContract(a)) in S { }
  }

  // ---------------------------------------------------------------------
  // reportPurityErrors.

  lemma KindsAreTwo(k: PurityKind)
    ensures k == Deterministic || k == SideEffectFree
  {
    match k
    case Deterministic =>
    case SideEffectFree =>
  }

  /** The message prefix for the "not both" reasons, naming the kinds the method lacks. */
  function PurityPrefix(missing: set<PurityKind>): string
  {
    if SideEffectFree !in missing then "purity.not.deterministic."
    else if Deterministic !in missing then "purity.not.sideeffectfree."
    else "purity.not.deterministic.not.sideeffectfree."
  }

  /** The prefix names exactly the expected kinds the method does not have. */
  lemma PurityPrefixSpec(missing: set<PurityKind>)
    requires missing != {}
    ensures PurityPrefix(missing) == "purity.not.deterministic." <==> missing == {Deterministic}
    ensures PurityPrefix(missing) == "purity.not.sideeffectfree." <==> missing == {SideEffectFree}
    ensures PurityPrefix(missing) == "purity.not.deterministic.not.sideeffectfree." <==> missing == {Deterministic, SideEffectFree}
  {
    var x :| x in missing;
    KindsAreTwo(x);
    if Deterministic in missing && SideEffectFree in missing {
      assert missing == {Deterministic, SideEffectFree} by {
        forall k | k in missing ensures k in {Deterministic, SideEffectFree} { KindsAreTwo(k); }
      }
    } else if Deterministic in missing {
      assert missing == {Deterministic} by {
        forall k | k in missing ensures k == Deterministic { KindsAreTwo(k); }
      }
    } else {
      assert missing == {SideEffectFree} by {
        forall k | k in missing ensures k == SideEffectFree { KindsAreTwo(k); }
      }
    }
    assert "purity.not.deterministic."[18] != "purity.not.sideeffectfree."[18];
  }

  function Prefixed(prefix: string, reasons: seq<string>): (r: seq<string>)
    ensures |r| == |reasons| && forall i :: 0 <= i < |r| ==> r[i] == prefix + reasons[i]
  {
    if reasons == [] then [] else Prefixed(prefix, reasons[..|reasons| - 1]) + [prefix + reasons[|reasons| - 1]]
  }

  /** The messages of reportPurityErrors, in order. */
  function PurityMessages(expected: set<PurityKind>, actual: set<PurityKind>,
                          notBoth: seq<string>, notSeFree: seq<string>, notDet: seq<string>): seq<string>
  {
    var missing := expected - actual;
    Prefixed(PurityPrefix(missing), notBoth)
    + (if SideEffectFree in missing then Prefixed("purity.not.sideeffectfree.", notSeFree) else [])
    + (if Deterministic in missing then Prefixed("purity.not.deterministic.", notDet) else [])
  }

  method AppendPrefixed(messages: seq<string>, prefix: string, reasons: seq<string>) returns (r: seq<string>)
    ensures r == messages + Prefixed(prefix, reasons)
  {
    r := messages;
    var i := 0;
    while i < |reasons|
      invariant 0 <= i <= |reasons|
      invariant r == messages + Prefixed(prefix, reasons[..i])
    {
      assert reasons[..i + 1][..i] == reasons[..i];
      r := r + [prefix + reasons[i]];
      i := i + 1;
    }
    assert reasons[..i] == reasons;
  }

  /** reportPurityErrors: called only for a method that is not as pure as expected. */
  method ReportPurityErrors(expected: set<PurityKind>, actual: set<PurityKind>,
                            notBoth: seq<string>, notSeFree: seq<string>, notDet: seq<string>)
    returns (messages: seq<string>)
    requires !(expected <= actual)
    ensures messages == PurityMessages(expected, actual, notBoth, notSeFree, notDet)
  {
    var t := expected - actual;
    messages := [];
    if Deterministic in t || SideEffectFree in t {
      var msgPrefix := "purity.not.deterministic.not.sideeffectfree.";
      if SideEffectFree !in t {
        msgPrefix := "purity.not.deterministic.";
      } else if Deterministic !in t {
        msgPrefix := "purity.not.sideeffectfree.";
      }
      assert msgPrefix == PurityPrefix(t);
      messages := AppendPrefixed(messages, msgPrefix, notBoth);
      ghost var both := messages;
      assert both == Prefixed(PurityPrefix(t), notBoth);
      if SideEffectFree in t {
        messages := AppendPrefixed(messages, "purity.not.sideeffectfree.", notSeFree);
      }
      ghost var seFree := messages;
      assert seFree == both + (if SideEffectFree in t then Prefixed("purity.not.sideeffectfree.", notSeFree) else []);
      if Deterministic in t {
        messages := AppendPrefixed(messages, "purity.not.deterministic.", notDet);
      }
      assert messages == seFree + (if Deterministic in t then Prefixed("purity.not.deterministic.", notDet) else []);
    } else {
      ghost var w :| w in expected && w !in actual;
      KindsAreTwo(w);
      assert false;
    }
  }

  /** Reasons of a kind the method lacks are reported; those of a kind it has are not. */
  lemma PurityMessagesSelective(expected: set<PurityKind>, actual: set<PurityKind>,
                                notBoth: seq<string>, notSeFree: seq<string>, notDet: seq<string>)
    ensures |PurityMessages(expected, actual, notBoth, notSeFree, notDet)| ==
              |notBoth| + (if SideEffectFree in expected - actual then |notSeFree| else 0)
                        + (if Deterministic in expected - actual then |notDet| else 0)
  {
  }

  // ---------------------------------------------------------------------
  // commonAssignmentCheck and checkConstructorInvocation.

  datatype TypeKind = DeclaredType | ArrayType | TypeVariable | PrimitiveType | OtherType

  datatype AType<H(==, !new), Q(==, !new)> = AType(kind: TypeKind, annos: Annos<H, Q>)

  predicate HasAnnotation<H(==, !new), Q(==, !new)>(t: AType<H, Q>, q: Q)
  {
    exists h :: h in t.annos && t.annos[h] == q
  }

  /** The first monotonic qualifier both types carry, if any. */
  function SharedMonotonic<H(==, !new), Q(==, !new)>(monotonic: seq<Q>, value: AType<H, Q>, variable: AType<H, Q>): (r: Option<Q>)
    ensures r.None? <==> forall i :: 0 <= i < |monotonic| ==> !(HasAnnotation(value, monotonic[i]) && HasAnnotation(variable, monotonic[i]))
    ensures r.Some? ==> r.value in monotonic && HasAnnotation(value, r.value) && HasAnnotation(variable, r.value)
  {
    if monotonic == [] then None
    else if HasAnnotation(value, monotonic[0]) && HasAnnotation(variable, monotonic[0]) then Some(monotonic[0])
    else
      var r := SharedMonotonic(monotonic[1..], value, variable);
      assert forall i :: 1 <= i < |monotonic| ==> monotonic[i] == monotonic[1..][i - 1];
      r
  }

  /** The reports of commonAssignmentCheck. */
  function AssignmentReports<H(==, !new), Q(==, !new)>(typeSubtype: (AType<H, Q>, AType<H, Q>) -> bool, monotonic: seq<Q>,
                                                        variable: AType<H, Q>, value: AType<H, Q>, errorKey: string,
                                                        isLocalVariableAssignment: bool): seq<Report<Q>>
  {
    if isLocalVariableAssignment && variable.kind == TypeVariable && |variable.annos| == 0 then []
    else if !typeSubtype(value, variable) then [Report(errorKey, NoDetail)]
    else if SharedMonotonic(monotonic, value, variable).Some? then [Report("monotonic.type.incompatible", NoDetail)]
    else []
  }

  method CommonAssignmentCheck<H(==, !new), Q(==, !new)>(typeSubtype: (AType<H, Q>, AType<H, Q>) -> bool, monotonic: seq<Q>,
                                                         variable: AType<H, Q>, value: AType<H, Q>, errorKey: string,
                                                         isLocalVariableAssignment: bool)
    returns (reports: seq<Report<Q>>)
    ensures reports == AssignmentReports(typeSubtype, monotonic, variable, value, errorKey, isLocalVariableAssignment)
  {
    reports := [];
    if isLocalVariableAssignment && variable.kind == TypeVariable && |variable.annos| == 0 {
      return;
    }
    var success := typeSubtype(value, variable);
    if success {
      var i := 0;
      while i < |monotonic|
        invariant 0 <= i <= |monotonic|
        invariant forall j :: 0 <= j < i ==> !(HasAnnotation(value, monotonic[j]) && HasAnnotation(variable, monotonic[j]))
      {
        var mono := monotonic[i];
        if (exists h :: h in value.annos && value.annos[h] == mono) && (exists h :: h in variable.annos && variable.annos[h] == mono) {
          reports := [Report("monotonic.type.incompatible", NoDetail)];
          return;
        }
        i := i + 1;
      }
    }
    if !success {
      reports := [Report(errorKey, NoDetail)];
    }
  }

  /**
   * An unannotated type-variable local always accepts; otherwise the error
   * key is reported exactly when the value is not a subtype of the variable,
   * and at most one diagnostic is issued.
   */
  lemma AssignmentReportsSpec<H(!new), Q(!new)>(typeSubtype: (AType<H, Q>, AType<H, Q>) -> bool, monotonic: seq<Q>,
                                                variable: AType<H, Q>, value: AType<H, Q>, errorKey: string, isLocal: bool)
    requires errorKey != "monotonic.type.incompatible"
    ensures var r := AssignmentReports(typeSubtype, monotonic, variable, value, errorKey, isLocal);
            && |r| <= 1
            && (isLocal && variable.kind == TypeVariable && |variable.annos| == 0 ==> r == [])
            && (!(isLocal && variable.kind == TypeVariable && |variable.annos| == 0) ==>
                  (Report(errorKey, NoDetail) in r <==> !typeSubtype(value, variable)))
  {
  }

  /** checkConstructorInvocation: the constructed and the declared result types must be related either way. */
  function CheckConstructorInvocation<T>(typeSubtype: (T, T) -> bool, dt: T, ret: T): (r: (bool, seq<string>))
    ensures r.0 <==> r.1 == []
  {
    var b := typeSubtype(dt, ret) || typeSubtype(ret, dt);
    (b, if b then [] else ["constructor.invocation.invalid"])
  }

  /** The test is symmetric, and a reflexive hierarchy accepts identical types. */
  lemma ConstructorInvocationSymmetric<T>(typeSubtype: (T, T) -> bool, dt: T, ret: T)
    ensures CheckConstructorInvocation(typeSubtype, dt, ret) == CheckConstructorInvocation(typeSubtype, ret, dt)
    ensures typeSubtype(dt, dt) ==> CheckConstructorInvocation(typeSubtype, dt, dt).0
  {
  }
}
