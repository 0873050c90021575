// The lock type system: a value of type @GuardedBy("l") may be used only
// while lock l is held. The type factory rewrites the symbolic lock names
// "this" and "itself" into the expressions they stand for, and sends a
// GuardedBy whose lock is currently held to the bottom of the hierarchy, so
// the types it returns carry GuardedBy only for locks that are not held.

module Lock {

  /** The qualifiers of the lock hierarchy. Only GuardedBy carries a value. */
  datatype LockQual = GuardedByTop | GuardedBy(lock: string) | GuardedByBottom

  /** The three nodes of the declared hierarchy graph, values erased. */
  datatype LockKind = TopKind | GuardedByKind | BottomKind

  function KindOf(q: LockQual): LockKind
  {
    match q
    case GuardedByTop => TopKind
    case GuardedBy(_) => GuardedByKind
    case GuardedByBottom => BottomKind
  }

  /** The edges createQualifierHierarchy declares: bottom below GuardedBy, GuardedBy below top. */
  const Edges: set<(LockKind, LockKind)> := {(BottomKind, GuardedByKind), (GuardedByKind, TopKind)}

  /** Reachability in the declared graph; a path in a three-node graph has at most two edges. */
  predicate GraphSubtype(sub: LockKind, sup: LockKind)
  {
    sub == sup || (sub, sup) in Edges || exists m: LockKind :: (sub, m) in Edges && (m, sup) in Edges
  }

  function Rank(k: LockKind): nat
  {
    match k
    case BottomKind => 0
    case GuardedByKind => 1
    case TopKind => 2
  }

  /** The declared graph is the chain GuardedByBottom <: GuardedBy <: GuardedByTop. */
  lemma GraphIsChain(a: LockKind, b: LockKind)
    ensures GraphSubtype(a, b) <==> Rank(a) <= Rank(b)
  {
    if Rank(a) <= Rank(b) && a != b && (a, b) !in Edges {
      assert a == BottomKind && b == TopKind;
      assert (a, GuardedByKind) in Edges && (GuardedByKind, b) in Edges;
    }
  }

  /**
   * LockQualifierHierarchy.isSubtype: bottom is below any GuardedBy; other
   * pairs are compared in the graph with GuardedBy values erased.
   */
  predicate IsSubtype(rhs: LockQual, lhs: LockQual)
  {
    if rhs.GuardedByBottom? && lhs.GuardedBy? then true
    else GraphSubtype(KindOf(rhs), KindOf(lhs))
  }

  /** Subtyping follows the chain and ignores lock names entirely. */
  lemma IsSubtypeIsChain(rhs: LockQual, lhs: LockQual)
    ensures IsSubtype(rhs, lhs) <==> Rank(KindOf(rhs)) <= Rank(KindOf(lhs))
  {
    GraphIsChain(KindOf(rhs), KindOf(lhs));
  }

  lemma BottomBelowEveryGuardedBy(v: string, w: string)
    ensures IsSubtype(GuardedByBottom, GuardedBy(w))
    ensures IsSubtype(GuardedBy(v), GuardedByTop) && !IsSubtype(GuardedByTop, GuardedBy(v))
    ensures !IsSubtype(GuardedBy(v), GuardedByBottom)
  {
    IsSubtypeIsChain(GuardedBy(v), GuardedByTop);
    IsSubtypeIsChain(GuardedByTop, GuardedBy(v));
    IsSubtypeIsChain(GuardedBy(v), GuardedByBottom);
  }

  /** Values are erased: any two GuardedBy qualifiers are subtypes of each other. */
  lemma GuardedByValuesIgnored(a: string, b: string)
    ensures IsSubtype(GuardedBy(a), GuardedBy(b)) && IsSubtype(GuardedBy(b), GuardedBy(a))
  {
  }

  /** Hence isSubtype is a preorder but not antisymmetric on qualifiers with values. */
  lemma IsSubtypePreorder(a: LockQual, b: LockQual, c: LockQual)
    ensures IsSubtype(a, a)
    ensures IsSubtype(a, b) && IsSubtype(b, c) ==> IsSubtype(a, c)
    ensures IsSubtype(GuardedBy("a"), GuardedBy("b")) && IsSubtype(GuardedBy("b"), GuardedBy("a"))
            && GuardedBy("a") != GuardedBy("b")
  {
    IsSubtypeIsChain(a, a);
    IsSubtypeIsChain(a, b);
    IsSubtypeIsChain(b, c);
    IsSubtypeIsChain(a, c);
  }

  // ---------------------------------------------------------------------
  // Expression trees, as far as the rewriting looks at them.

  datatype Tree =
    | Identifier(name: string)
    | MemberSelect(expression: Tree, identifier: string)
    | MethodInvocation(methodSelect: Tree, arguments: seq<Tree>)
    | Parenthesized(inner: Tree)
    | OtherTree(text: string)

  /** The trees whose annotations the rewriting touches. */
  predicate IsRewritable(t: Tree)
  {
    t.Identifier? || t.MemberSelect? || t.MethodInvocation?
  }

  /** The source text of an expression, as the compiler's printer renders it. */
  function Text(t: Tree): string
  {
    match t
    case Identifier(n) => n
    case MemberSelect(e, id) => Text(e) + "." + id
    case MethodInvocation(sel, args) => Text(sel) + "(" + TextList(args) + ")"
    case Parenthesized(e) => "(" + Text(e) + ")"
    case OtherTree(s) => s
  }

  function TextList(ts: seq<Tree>): string
  {
    if ts == [] then ""
    else if |ts| == 1 then Text(ts[0])
    else Text(ts[0]) + ", " + TextList(ts[1..])
  }

  function SkipParens(t: Tree): (r: Tree)
    ensures !r.Parenthesized?
  {
    if t.Parenthesized? then SkipParens(t.inner) else t
  }

  /** receiver: the expression a member select (or the method select of a call) is applied to. */
  function Receiver(expr: Tree): (r: Option<Tree>)
    ensures r.Some? <==> SkipParens(if expr.MethodInvocation? then expr.methodSelect else expr).MemberSelect?
    ensures expr.Identifier? ==> r == None
    ensures expr.MemberSelect? ==> r == Some(expr.expression)
  {
    var e := SkipParens(if expr.MethodInvocation? then expr.methodSelect else expr);
    if e.MemberSelect? then Some(e.expression) else None
  }

  datatype Option<T> = None | Some(value: T)

  // ---------------------------------------------------------------------
  // The rewriting steps, as functions of the annotation in the lock hierarchy.

  /** removeHeldLocks: a GuardedBy whose lock is held becomes bottom. */
  function HeldLocksRemoved(held: seq<string>, q: Option<LockQual>): Option<LockQual>
  {
    if q.Some? && q.value.GuardedBy? && q.value.lock in held then Some(GuardedByBottom) else q
  }

  /** replaceThis: GuardedBy("this") on a dereference becomes GuardedBy(<its receiver>). */
  function ThisReplaced(q: Option<LockQual>, tree: Tree, mostEnclosingThisDeref: bool): Option<LockQual>
  {
    if !IsRewritable(tree) || !(q.Some? && q.value.GuardedBy?) || mostEnclosingThisDeref then q
    else if q.value.lock != "this" then q
    else
      match Receiver(tree)
      case Some(r) => Some(GuardedBy(Text(r)))
      case None => q
  }

  /** replaceItself: GuardedBy("itself") becomes GuardedBy(<the expression itself>). */
  function ItselfReplaced(q: Option<LockQual>, tree: Tree): Option<LockQual>
  {
    if IsRewritable(tree) && q.Some? && q.value == GuardedBy("itself") then Some(GuardedBy(Text(tree))) else q
  }

  lemma HeldLocksRemovedSpec(held: seq<string>, q: Option<LockQual>)
    ensures q.Some? && q.value.GuardedBy? && q.value.lock in held ==> HeldLocksRemoved(held, q) == Some(GuardedByBottom)
    ensures !(q.Some? && q.value.GuardedBy? && q.value.lock in held) ==> HeldLocksRemoved(held, q) == q
    ensures HeldLocksRemoved(held, HeldLocksRemoved(held, q)) == HeldLocksRemoved(held, q)
    ensures HeldLocksRemoved([], q) == q
  {
  }

  lemma ItselfReplacedSpec(q: Option<LockQual>, tree: Tree)
    ensures IsRewritable(tree) && q == Some(GuardedBy("itself")) ==> ItselfReplaced(q, tree) == Some(GuardedBy(Text(tree)))
    ensures q != Some(GuardedBy("itself")) ==> ItselfReplaced(q, tree) == q
    ensures !IsRewritable(tree) ==> ItselfReplaced(q, tree) == q
  {
  }

  lemma ThisReplacedSpec(q: Option<LockQual>, tree: Tree, mostEnclosingThisDeref: bool)
    ensures ThisReplaced(q, tree, mostEnclosingThisDeref) != q <==>
              IsRewritable(tree) && !mostEnclosingThisDeref && q == Some(GuardedBy("this"))
              && Receiver(tree).Some? && Text(Receiver(tree).value) != "this"
    ensures ThisReplaced(q, tree, mostEnclosingThisDeref) != q ==>
              ThisReplaced(q, tree, mostEnclosingThisDeref) == Some(GuardedBy(Text(Receiver(tree).value)))
  {
  }

  /** On a field access o.f, GuardedBy("this") names the object o. */
  lemma ThisOnFieldAccess(o: Tree, f: string)
    requires Text(o) != "this"
    ensures ThisReplaced(Some(GuardedBy("this")), MemberSelect(o, f), false) == Some(GuardedBy(Text(o)))
    ensures ThisReplaced(Some(GuardedBy("this")), MemberSelect(o, f), true) == Some(GuardedBy("this"))
    ensures ThisReplaced(Some(GuardedBy("this")), Identifier(f), false) == Some(GuardedBy("this"))
  {
  }

  // ---------------------------------------------------------------------
  // The factory object.

  /** An annotated type: its qualifier in the lock hierarchy, and a jcip GuardedBy if written. */
  class LockType {
    var qual: Option<LockQual>
    var jcipGuardedBy: Option<string>

    constructor (qual: Option<LockQual>, jcipGuardedBy: Option<string>)
      ensures this.qual == qual && this.jcipGuardedBy == jcipGuardedBy
    {
      this.qual := qual;
      this.jcipGuardedBy := jcipGuardedBy;
    }

    /** hasGuardedBy: either the checker's GuardedBy or the jcip one is present. */
    predicate HasGuardedBy()
      reads this
    {
      (qual.Some? && qual.value.GuardedBy?) || jcipGuardedBy.Some?
    }
  }

  /** The qualifier produced by annotateImplicit, step by step. */
  function ImplicitQual(held: seq<string>, tree: Tree, q: Option<LockQual>, hasGuardedBy: bool,
                        defaults: (Tree, Option<LockQual>) -> Option<LockQual>, mostEnclosingThisDeref: bool)
    : Option<LockQual>
  {
    var d := if hasGuardedBy then q else defaults(tree, q);
    HeldLocksRemoved(held, ItselfReplaced(ThisReplaced(d, tree, mostEnclosingThisDeref), tree))
  }

  /**
   * What annotateImplicit guarantees: no type it returns is guarded by a held
   * lock, a written GuardedBy is never overridden by defaults, and an
   * "itself" guard on an expression is resolved to that expression (or to
   * bottom, when that expression is itself a held lock).
   */
  lemma ImplicitQualGuarantees(held: seq<string>, tree: Tree, q: Option<LockQual>, hasGuardedBy: bool,
                               defaults: (Tree, Option<LockQual>) -> Option<LockQual>, mostEnclosingThisDeref: bool)
    ensures var r := ImplicitQual(held, tree, q, hasGuardedBy, defaults, mostEnclosingThisDeref);
            r.Some? && r.value.GuardedBy? ==> r.value.lock !in held
    ensures hasGuardedBy && q == Some(GuardedBy("itself")) && IsRewritable(tree) ==>
              ImplicitQual(held, tree, q, hasGuardedBy, defaults, mostEnclosingThisDeref)
              == (if Text(tree) in held then Some(GuardedByBottom) else Some(GuardedBy(Text(tree))))
    ensures hasGuardedBy && q.Some? && q.value.GuardedBy? && q.value.lock !in held
            && q.value.lock != "this" && q.value.lock != "itself" ==>
              ImplicitQual(held, tree, q, hasGuardedBy, defaults, mostEnclosingThisDeref) == q
  {
  }

  class LockAnnotatedTypeFactory {
    var heldLocks: seq<string>
    /** The aliases the superclass resolves; the jcip GuardedBy is handled here. */
    const superAlias: string -> Option<LockQual>

    constructor (superAlias: string -> Option<LockQual>)
      ensures heldLocks == [] && this.superAlias == superAlias
    {
      heldLocks := [];
      this.superAlias := superAlias;
    }

    method SetHeldLocks(locks: seq<string>)
      modifies this`heldLocks
      ensures heldLocks == locks
    {
      heldLocks := locks;
    }

    /** getHeldLock: a read-only view of the held locks. */
    function GetHeldLock(): seq<string>
      reads this
    {
      heldLocks
    }

    method RemoveHeldLocks(t: LockType)
      modifies t`qual
      ensures t.qual == HeldLocksRemoved(heldLocks, old(t.qual))
    {
      if !(t.qual.Some? && t.qual.value.GuardedBy?) {
        return;
      }
      var lock := t.qual.value.lock;
      if lock in heldLocks {
        t.qual := Some(GuardedByBottom);
      }
    }

    method ReplaceThis(t: LockType, tree: Tree, mostEnclosingThisDeref: bool)
      modifies t`qual
      ensures t.qual == ThisReplaced(old(t.qual), tree, mostEnclosingThisDeref)
    {
      if !IsRewritable(tree) {
        return;
      }
      if !(t.qual.Some? && t.qual.value.GuardedBy?) || mostEnclosingThisDeref {
        return;
      }
      if t.qual.value.lock != "this" {
        return;
      }
      var receiver := Receiver(tree);
      if receiver.Some? {
        t.qual := Some(GuardedBy(Text(receiver.value)));
      }
    }

    method ReplaceItself(t: LockType, tree: Tree)
      modifies t`qual
      ensures t.qual == ItselfReplaced(old(t.qual), tree)
    {
      if !IsRewritable(tree) {
        return;
      }
      if !(t.qual.Some? && t.qual.value.GuardedBy?) {
        return;
      }
      if t.qual.value.lock != "itself" {
        return;
      }
      t.qual := Some(GuardedBy(Text(tree)));
    }

    /**
     * annotateImplicit: the superclass defaults apply only to a type without
     * GuardedBy; then "this" and "itself" are resolved and held locks removed.
     */
    method AnnotateImplicit(tree: Tree, t: LockType, defaults: (Tree, Option<LockQual>) -> Option<LockQual>,
                            mostEnclosingThisDeref: bool)
      modifies t`qual
      ensures t.qual == ImplicitQual(heldLocks, tree, old(t.qual), old(t.HasGuardedBy()), defaults, mostEnclosingThisDeref)
      ensures t.qual.Some? && t.qual.value.GuardedBy? ==> t.qual.value.lock !in heldLocks
    {
      if !t.HasGuardedBy() {
        t.qual := defaults(tree, t.qual);
      }
      ReplaceThis(t, tree, mostEnclosingThisDeref);
      ReplaceItself(t, tree);
      RemoveHeldLocks(t);
      ImplicitQualGuarantees(heldLocks, tree, old(t.qual), old(t.HasGuardedBy()), defaults, mostEnclosingThisDeref);
    }

    /** aliasedAnnotation: a jcip GuardedBy(v) stands for GuardedBy(v); other names go to the superclass. */
    function AliasedAnnotation(name: string, value: string): (r: Option<LockQual>)
      reads this
      ensures name == JcipGuardedByName ==> r == Some(GuardedBy(value))
      ensures name != JcipGuardedByName ==> r == superAlias(name)
    {
      if name == JcipGuardedByName then Some(GuardedBy(value)) else superAlias(name)
    }
  }

  const JcipGuardedByName: string := "net.jcip.annotations.GuardedBy"
}
