// Placing type annotations read from a class file onto an annotated type.
//
// A type annotation carries a location: a type path in the sense of section
// 4.7.20.2 of the Java Virtual Machine Specification (Java SE 8), a list of
// entries each saying "go into a type argument", "go one nested type deeper",
// "go into a wildcard's bound" or "go into an array's component". The
// navigation follows that list down an annotated type and the annotation is
// added to the type it reaches.
//
// Annotated types are values here: navigation yields the path of steps from
// the root to the target, and annotating rebuilds the root with the target's
// qualifier set extended. A fatal ErrorReporter.errorAbort and a runtime
// exception of the Java code (an index out of bounds) both end the operation
// and are kept apart as Aborted and Crashed.

module TypeFromElement {

  datatype Option<T> = None | Some(value: T)

  /**
   * An annotated type. A declared type lists its type arguments and the type
   * it is nested in (its enclosing type); a wildcard records whether its
   * extends bound was written explicitly; a type variable has an upper bound
   * that may be an intersection.
   */
  datatype ATM<Q(==)> =
    | Declared(annos: set<Q>, isInterface: bool, typeArgs: seq<ATM<Q>>, enclosing: Option<ATM<Q>>)
    | Wildcard(annos: set<Q>, explicitExtends: bool, extendsBound: Option<ATM<Q>>, superBound: Option<ATM<Q>>)
    | TypeVar(annos: set<Q>, upper: ATM<Q>)
    | Array(annos: set<Q>, component: ATM<Q>)
    | Intersection(annos: set<Q>, supers: seq<ATM<Q>>)
    | Other(annos: set<Q>)

  /** One entry of a class-file type path. */
  datatype TypePathEntry = ArrayEntry | InnerTypeEntry | WildcardEntry | TypeArgumentEntry(arg: nat)

  /** One step from a type to a type inside it. */
  datatype Step = ArgStep(arg: nat) | EnclStep | BoundStep(index: nat) | ComponentStep

  /** The outcome of navigation: the path to the target, a fatal abort, or a runtime exception. */
  datatype Nav = Located(path: seq<Step>) | Aborted | Crashed

  /**
   * Which INNER_TYPE rule to follow: the one the code implements, or the
   * one that consumes exactly the INNER_TYPE entries it counted.
   */
  datatype Mode = AsWritten | Intended

  // ---------------------------------------------------------------------
  // Sizes, bounds and steps.

  function Size<Q(==)>(t: ATM<Q>): nat
    decreases t
  {
    match t
    case Declared(_, _, args, encl) => 1 + SizeAll(args) + (if encl.Some? then Size(encl.value) else 0)
    case Wildcard(_, _, e, s) => 1 + (if e.Some? then Size(e.value) else 0) + (if s.Some? then Size(s.value) else 0)
    case TypeVar(_, u) => 1 + Size(u)
    case Array(_, c) => 1 + Size(c)
    case Intersection(_, ss) => 1 + SizeAll(ss)
    case Other(_) => 1
  }

  function SizeAll<Q(==)>(ts: seq<ATM<Q>>): nat
    decreases ts
  {
    if ts == [] then 0 else Size(ts[0]) + SizeAll(ts[1..])
  }

  lemma {:induction false} SizeAllBound<Q>(ts: seq<ATM<Q>>)
    ensures forall k :: 0 <= k < |ts| ==> Size(ts[k]) <= SizeAll(ts)
  {
    if ts != [] {
      SizeAllBound(ts[1..]);
      forall k | 0 < k < |ts| ensures Size(ts[k]) <= SizeAll(ts) {
        assert ts[k] == ts[1..][k - 1];
      }
    }
  }

  /**
   * The bound getBounds starts from: a type variable's upper bound; for a
   * wildcard its extends bound when one was written, else its super bound,
   * else the (default) extends bound.
   */
  function BoundOf<Q(==)>(t: ATM<Q>): Option<ATM<Q>>
    requires t.TypeVar? || t.Wildcard?
  {
    if t.TypeVar? then Some(t.upper)
    else if t.explicitExtends then t.extendsBound
    else if t.superBound.Some? then t.superBound
    else t.extendsBound
  }

  /** getBounds: no bound gives no bounds, an intersection its members, any other type itself. */
  function GetBounds<Q(==)>(t: ATM<Q>): (bs: seq<ATM<Q>>)
    requires t.TypeVar? || t.Wildcard?
    ensures forall i :: 0 <= i < |bs| ==> Size(bs[i]) < Size(t)
  {
    match BoundOf(t)
    case None => []
    case Some(b) =>
      if b.Intersection? then (SizeAllBound(b.supers); b.supers) else [b]
  }

  /** The type one step leads to, if that step exists. */
  function Child<Q(==)>(t: ATM<Q>, s: Step): (r: Option<ATM<Q>>)
    ensures r.Some? ==> Size(r.value) < Size(t)
  {
    match s
    case ArgStep(k) =>
      if t.Declared? && k < |t.typeArgs| then (SizeAllBound(t.typeArgs); Some(t.typeArgs[k])) else None
    case EnclStep =>
      if t.Declared? && t.enclosing.Some? then Some(t.enclosing.value) else None
    case BoundStep(i) =>
      if (t.TypeVar? || t.Wildcard?) && i < |GetBounds(t)| then Some(GetBounds(t)[i]) else None
    case ComponentStep =>
      if t.Array? then Some(t.component) else None
  }

  /** The type a path of steps leads to. */
  function At<Q(==)>(t: ATM<Q>, p: seq<Step>): Option<ATM<Q>>
    decreases |p|
  {
    if p == [] then Some(t)
    else match Child(t, p[0])
      case None => None
      case Some(c) => At(c, p[1..])
  }

  /** The same type with the qualifier set a. */
  function WithAnnos<Q(==)>(t: ATM<Q>, a: set<Q>): (r: ATM<Q>)
    ensures r.annos == a
    ensures r.Declared? == t.Declared? && r.Wildcard? == t.Wildcard? && r.TypeVar? == t.TypeVar?
    ensures r.Array? == t.Array? && r.Intersection? == t.Intersection? && r.Other? == t.Other?
  {
    match t
    case Declared(_, i, args, e) => Declared(a, i, args, e)
    case Wildcard(_, x, e, s) => Wildcard(a, x, e, s)
    case TypeVar(_, u) => TypeVar(a, u)
    case Array(_, c) => Array(a, c)
    case Intersection(_, ss) => Intersection(a, ss)
    case Other(_) => Other(a)
  }

  /** Put nb where BoundOf(t) was read from. */
  function SetBound<Q(==)>(t: ATM<Q>, nb: ATM<Q>): (r: ATM<Q>)
    requires t.TypeVar? || t.Wildcard?
    ensures r.TypeVar? == t.TypeVar? && r.Wildcard? == t.Wildcard? && BoundOf(r) == Some(nb) && r.annos == t.annos
  {
    if t.TypeVar? then t.(upper := nb)
    else if t.explicitExtends then t.(extendsBound := Some(nb))
    else if t.superBound.Some? then t.(superBound := Some(nb))
    else t.(extendsBound := Some(nb))
  }

  /** The type with the child at step s replaced by c. */
  function Replace<Q(==)>(t: ATM<Q>, s: Step, c: ATM<Q>): (r: ATM<Q>)
    requires Child(t, s).Some?
  {
    match s
    case ArgStep(k) => t.(typeArgs := t.typeArgs[k := c])
    case EnclStep => t.(enclosing := Some(c))
    case ComponentStep => t.(component := c)
    case BoundStep(i) =>
      var b := BoundOf(t).value;
      SetBound(t, if b.Intersection? then b.(supers := b.supers[i := c]) else c)
  }

  /** Replacing a child by one of the same sort puts it exactly there and keeps the qualifiers. */
  lemma ChildReplace<Q>(t: ATM<Q>, s: Step, c: ATM<Q>)
    requires Child(t, s).Some? && c.Intersection? == Child(t, s).value.Intersection?
    ensures Child(Replace(t, s, c), s) == Some(c)
    ensures Replace(t, s, c).annos == t.annos
  {
  }

  /** addAnnotations at the end of a path: the target's qualifier set grows by qs. */
  function UpdateAt<Q(==)>(t: ATM<Q>, p: seq<Step>, qs: set<Q>): (r: ATM<Q>)
    requires At(t, p).Some?
    ensures r.Intersection? == t.Intersection?
    ensures p != [] ==> r.annos == t.annos
    decreases |p|
  {
    if p == [] then WithAnnos(t, t.annos + qs)
    else Replace(t, p[0], UpdateAt(Child(t, p[0]).value, p[1..], qs))
  }

  /** The path still leads to the target, which now carries qs besides its own qualifiers. */
  lemma {:induction false} UpdateAtTarget<Q>(t: ATM<Q>, p: seq<Step>, qs: set<Q>)
    requires At(t, p).Some?
    ensures At(UpdateAt(t, p, qs), p) == Some(WithAnnos(At(t, p).value, At(t, p).value.annos + qs))
    decreases |p|
  {
    if p != [] {
      var c := Child(t, p[0]).value;
      UpdateAtTarget(c, p[1..], qs);
      ChildReplace(t, p[0], UpdateAt(c, p[1..], qs));
    }
  }

  // ---------------------------------------------------------------------
  // countInner and countEnclosing.

  /** The length of the leading run of INNER_TYPE entries. */
  function InnerRun(loc: seq<TypePathEntry>): (n: nat)
    ensures n <= |loc|
    ensures forall i :: 0 <= i < n ==> loc[i] == InnerTypeEntry
    ensures n < |loc| ==> loc[n] != InnerTypeEntry
  {
    if loc != [] && loc[0] == InnerTypeEntry then 1 + InnerRun(loc[1..]) else 0
  }

  /** The number of types a declared type is nested in. */
  function Depth<Q(==)>(t: ATM<Q>): (d: nat)
    ensures d < Size(t)
  {
    if t.Declared? && t.enclosing.Some? then 1 + Depth(t.enclosing.value) else 0
  }

  /** The type n enclosing steps out. */
  function Outward<Q(==)>(t: ATM<Q>, n: nat): (r: ATM<Q>)
    requires n <= Depth(t)
    ensures Depth(r) == Depth(t) - n
    ensures n > 0 ==> Size(r) < Size(t)
  {
    if n == 0 then t else Outward(t.enclosing.value, n - 1)
  }

  /** countInner. */
  method CountInner(location: seq<TypePathEntry>) returns (cnt: nat)
    ensures cnt == InnerRun(location)
  {
    cnt := 0;
    var loc := location;
    while loc != [] && loc[0] == InnerTypeEntry
      invariant cnt <= |location| && loc == location[cnt..]
      invariant cnt + InnerRun(loc) == InnerRun(location)
      decreases |loc|
    {
      cnt := cnt + 1;
      loc := loc[1..];
    }
  }

  /** countEnclosing; enclosing types are declared types. */
  method CountEnclosing<Q(==)>(t: ATM<Q>) returns (cnt: nat)
    ensures cnt == Depth(t)
  {
    cnt := 0;
    var ty := t;
    while ty.Declared? && ty.enclosing.Some?
      invariant cnt + Depth(ty) == Depth(t)
      decreases Depth(ty)
    {
      cnt := cnt + 1;
      ty := ty.enclosing.value;
    }
  }

  // ---------------------------------------------------------------------
  // getLocationTypeATM / ADT / AWT / AAT.

  function Prepend(s: Step, n: Nav): (r: Nav)
    ensures r.Located? <==> n.Located?
    ensures r.Located? ==> r.path == [s] + n.path
  {
    if n.Located? then Located([s] + n.path) else n
  }

  /**
   * getLocationTypeATM: an empty location is the type itself; declared
   * types, wildcards and arrays navigate further; any other type with a
   * location is a fatal error.
   */
  function LocationATM<Q(==)>(t: ATM<Q>, loc: seq<TypePathEntry>, m: Mode): Nav
    decreases Size(t), |loc|, 2
  {
    if loc == [] then Located([])
    else if t.Declared? then LocationADT(t, loc, m)
    else if t.Wildcard? then LocationAWT(t, loc, m)
    else if t.Array? then LocationAAT(t, loc, m)
    else Aborted
  }

  /**
   * getLocationTypeADT. A TYPE_ARGUMENT entry within range descends into
   * that argument. A run of INNER_TYPE entries longer than the enclosing
   * chain stays on the type; one as long drops those entries and continues
   * on the same type; a shorter one moves (enclosing - inner) types outward.
   * Anything else stays on the type.
   */
  function LocationADT<Q(==)>(t: ATM<Q>, loc: seq<TypePathEntry>, m: Mode): Nav
    requires t.Declared?
    decreases Size(t), |loc|, 1
  {
    if loc == [] then Located([])
    else if loc[0].TypeArgumentEntry? && loc[0].arg < |t.typeArgs| then
      Prepend(ArgStep(loc[0].arg), LocationATM(Child(t, ArgStep(loc[0].arg)).value, loc[1..], m))
    else if loc[0] == InnerTypeEntry then
      var encl := Depth(t);
      var inner := InnerRun(loc);
      if inner > encl then Located([])
      else if inner == encl then LocationATM(t, loc[encl..], m)
      else StepOut(t, if m == AsWritten then loc else loc[inner..], encl - inner, m)
    else Located([])
  }

  /**
   * The outward loop of getLocationTypeADT. As written, every step outward
   * also drops one location entry, and dropping from an empty list fails;
   * as intended, the counted INNER_TYPE entries were dropped beforehand and
   * the steps outward drop nothing.
   */
  function StepOut<Q(==)>(t: ATM<Q>, loc: seq<TypePathEntry>, n: nat, m: Mode): Nav
    requires 1 <= n <= Depth(t)
    decreases Size(t), |loc|, 0
  {
    if m == AsWritten && loc == [] then Crashed
    else
      var rest := if m == AsWritten then loc[1..] else loc;
      var e := t.enclosing.value;
      Prepend(EnclStep, if n == 1 then LocationATM(e, rest, m) else StepOut(e, rest, n - 1, m))
  }

  /** getLocationTypeAWT: a WILDCARD entry goes into the first bound; anything else stays. */
  function LocationAWT<Q(==)>(t: ATM<Q>, loc: seq<TypePathEntry>, m: Mode): Nav
    requires t.Wildcard?
    decreases Size(t), |loc|, 1
  {
    if loc == [] then Located([])
    else if loc[0] == WildcardEntry then
      if |GetBounds(t)| == 0 then Crashed
      else Prepend(BoundStep(0), LocationATM(GetBounds(t)[0], loc[1..], m))
    else Located([])
  }

  /** getLocationTypeAAT: an ARRAY entry goes into the component; anything else is fatal. */
  function LocationAAT<Q(==)>(t: ATM<Q>, loc: seq<TypePathEntry>, m: Mode): Nav
    requires t.Array?
    decreases Size(t), |loc|, 1
  {
    if |loc| >= 1 && loc[0] == ArrayEntry then
      Prepend(ComponentStep, LocationATM(t.component, loc[1..], m))
    else Aborted
  }

  /** The type a location reaches, if navigation succeeds. */
  function Target<Q(==)>(t: ATM<Q>, loc: seq<TypePathEntry>, m: Mode): Option<ATM<Q>>
  {
    NavTarget(t, LocationATM(t, loc, m))
  }

  function NavTarget<Q(==)>(t: ATM<Q>, n: Nav): Option<ATM<Q>>
  {
    if n.Located? then At(t, n.path) else None
  }

  /** A step in front of a navigation result moves its target one child down. */
  lemma PrependTarget<Q>(t: ATM<Q>, s: Step, c: ATM<Q>, n: Nav)
    requires Child(t, s) == Some(c)
    ensures NavTarget(t, Prepend(s, n)) == NavTarget(c, n)
  {
    if n.Located? {
      assert ([s] + n.path)[1..] == n.path;
    }
  }

  /** Navigation that succeeds always ends at a type inside the one it started from. */
  lemma {:induction false} NavigationSound<Q>(t: ATM<Q>, loc: seq<TypePathEntry>, m: Mode)
    ensures LocationATM(t, loc, m).Located? ==> Target(t, loc, m).Some?
    decreases Size(t), |loc|, 2
  {
    if loc == [] {
    } else if t.Declared? {
      SoundADT(t, loc, m);
    } else if t.Wildcard? {
      assert LocationATM(t, loc, m) == LocationAWT(t, loc, m);
      if loc[0] == WildcardEntry && |GetBounds(t)| > 0 {
        var b := GetBounds(t)[0];
        assert LocationATM(t, loc, m) == Prepend(BoundStep(0), LocationATM(b, loc[1..], m));
        NavigationSound(b, loc[1..], m);
        PrependTarget(t, BoundStep(0), b, LocationATM(b, loc[1..], m));
      }
    } else if t.Array? {
      assert LocationATM(t, loc, m) == LocationAAT(t, loc, m);
      if loc[0] == ArrayEntry {
        assert LocationATM(t, loc, m) == Prepend(ComponentStep, LocationATM(t.component, loc[1..], m));
        NavigationSound(t.component, loc[1..], m);
        PrependTarget(t, ComponentStep, t.component, LocationATM(t.component, loc[1..], m));
      }
    }
  }

  lemma {:induction false} SoundADT<Q>(t: ATM<Q>, loc: seq<TypePathEntry>, m: Mode)
    requires t.Declared? && loc != []
    ensures LocationADT(t, loc, m).Located? ==> NavTarget(t, LocationADT(t, loc, m)).Some?
    decreases Size(t), |loc|, 1
  {
    if loc[0].TypeArgumentEntry? && loc[0].arg < |t.typeArgs| {
      var c := Child(t, ArgStep(loc[0].arg)).value;
      NavigationSound(c, loc[1..], m);
      PrependTarget(t, ArgStep(loc[0].arg), c, LocationATM(c, loc[1..], m));
    } else if loc[0] == InnerTypeEntry {
      var encl := Depth(t);
      var inner := InnerRun(loc);
      if inner == encl {
        NavigationSound(t, loc[encl..], m);
      } else if inner < encl {
        SoundStepOut(t, if m == AsWritten then loc else loc[inner..], encl - inner, m);
      }
    }
  }

  lemma {:induction false} SoundStepOut<Q>(t: ATM<Q>, loc: seq<TypePathEntry>, n: nat, m: Mode)
    requires 1 <= n <= Depth(t)
    ensures StepOut(t, loc, n, m).Located? ==> NavTarget(t, StepOut(t, loc, n, m)).Some?
    decreases Size(t), |loc|, 0
  {
    if !(m == AsWritten && loc == []) {
      var rest := if m == AsWritten then loc[1..] else loc;
      var e := t.enclosing.value;
      if n == 1 {
        NavigationSound(e, rest, m);
        PrependTarget(t, EnclStep, e, LocationATM(e, rest, m));
      } else {
        SoundStepOut(e, rest, n - 1, m);
        PrependTarget(t, EnclStep, e, StepOut(e, rest, n - 1, m));
      }
    }
  }

  /** The navigation rules, entry kind by entry kind. */
  lemma NavigationRules<Q>(t: ATM<Q>, loc: seq<TypePathEntry>, m: Mode)
    ensures loc == [] ==> Target(t, loc, m) == Some(t)
    ensures loc != [] && t.Declared? && loc[0].TypeArgumentEntry? && loc[0].arg < |t.typeArgs| ==>
              Target(t, loc, m) == Target(t.typeArgs[loc[0].arg], loc[1..], m)
    ensures loc != [] && t.Declared? && loc[0].TypeArgumentEntry? && loc[0].arg >= |t.typeArgs| ==>
              Target(t, loc, m) == Some(t)
    ensures loc != [] && t.Array? ==>
              (if loc[0] == ArrayEntry then Target(t, loc, m) == Target(t.component, loc[1..], m)
               else LocationATM(t, loc, m) == Aborted)
    ensures loc != [] && t.Wildcard? && loc[0] == WildcardEntry ==>
              (if |GetBounds(t)| == 0 then LocationATM(t, loc, m) == Crashed
               else Target(t, loc, m) == Target(GetBounds(t)[0], loc[1..], m))
    ensures loc != [] && (t.TypeVar? || t.Intersection? || t.Other?) ==> LocationATM(t, loc, m) == Aborted
  {
    if loc != [] {
      if t.Declared? {
        assert LocationATM(t, loc, m) == LocationADT(t, loc, m);
        if loc[0].TypeArgumentEntry? && loc[0].arg < |t.typeArgs| {
          var c := t.typeArgs[loc[0].arg];
          assert LocationADT(t, loc, m) == Prepend(ArgStep(loc[0].arg), LocationATM(c, loc[1..], m));
          PrependTarget(t, ArgStep(loc[0].arg), c, LocationATM(c, loc[1..], m));
        }
      } else if t.Array? {
        assert LocationATM(t, loc, m) == LocationAAT(t, loc, m);
        if loc[0] == ArrayEntry {
          PrependTarget(t, ComponentStep, t.component, LocationATM(t.component, loc[1..], m));
        }
      } else if t.Wildcard? {
        assert LocationATM(t, loc, m) == LocationAWT(t, loc, m);
        if loc[0] == WildcardEntry && |GetBounds(t)| > 0 {
          var b := GetBounds(t)[0];
          PrependTarget(t, BoundStep(0), b, LocationATM(b, loc[1..], m));
        }
      }
    }
  }

  /** INNER_TYPE runs the enclosing chain cannot hold, and runs exactly as long as it. */
  lemma InnerTypeRules<Q>(t: ATM<Q>, loc: seq<TypePathEntry>, m: Mode)
    requires t.Declared? && loc != [] && loc[0] == InnerTypeEntry
    ensures InnerRun(loc) > Depth(t) ==> Target(t, loc, m) == Some(t)
    ensures InnerRun(loc) == Depth(t) ==> Target(t, loc, m) == Target(t, loc[Depth(t)..], m)
  {
    assert LocationATM(t, loc, m) == LocationADT(t, loc, m);
  }

  /**
   * With the counted INNER_TYPE entries consumed, a run of j of them on a
   * type nested in d others reaches the type d - j steps outward, that is
   * j levels below the outermost type, and the rest of the location
   * continues from there.
   */
  lemma InnerTypeIntended<Q>(t: ATM<Q>, j: nat, rest: seq<TypePathEntry>)
    requires t.Declared? && 1 <= j <= Depth(t)
    requires rest == [] || rest[0] != InnerTypeEntry
    ensures Target(t, seq(j, _ => InnerTypeEntry) + rest, Intended) == Target(Outward(t, Depth(t) - j), rest, Intended)
  {
    var loc := seq(j, _ => InnerTypeEntry) + rest;
    InnerRunPrefix(j, rest);
    assert loc[j..] == rest;
    assert loc != [] && loc[0] == InnerTypeEntry;
    assert LocationATM(t, loc, Intended) == LocationADT(t, loc, Intended);
    if j < Depth(t) {
      StepOutIntended(t, rest, Depth(t) - j);
    }
  }

  lemma {:induction false} InnerRunPrefix(j: nat, rest: seq<TypePathEntry>)
    requires rest == [] || rest[0] != InnerTypeEntry
    ensures InnerRun(seq(j, _ => InnerTypeEntry) + rest) == j
  {
    if j > 0 {
      var loc := seq(j, _ => InnerTypeEntry) + rest;
      assert loc[1..] == seq(j - 1, _ => InnerTypeEntry) + rest;
      InnerRunPrefix(j - 1, rest);
    } else {
      assert seq(j, _ => InnerTypeEntry) + rest == rest;
    }
  }

  lemma {:induction false} StepOutIntended<Q>(t: ATM<Q>, rest: seq<TypePathEntry>, n: nat)
    requires 1 <= n <= Depth(t)
    ensures NavTarget(t, StepOut(t, rest, n, Intended)) == Target(Outward(t, n), rest, Intended)
    decreases n
  {
    var e := t.enclosing.value;
    if n == 1 {
      PrependTarget(t, EnclStep, e, LocationATM(e, rest, Intended));
    } else {
      StepOutIntended(e, rest, n - 1);
      PrependTarget(t, EnclStep, e, StepOut(e, rest, n - 1, Intended));
    }
  }

  /**
   * As written, the outward loop drops (enclosing - inner) entries instead
   * of the inner ones it counted. For Inner nested in C, nested in B,
   * nested in A, with B generic in one argument:
   *  - [INNER_TYPE, TYPE_ARGUMENT 0] is meant to reach B's type argument,
   *    but reaches B, because the TYPE_ARGUMENT entry is dropped;
   *  - [INNER_TYPE] is meant to reach B, but the loop takes the tail of an
   *    empty list.
   */
  lemma InnerTypeAsWritten()
    ensures var a := Declared({}, false, [], None);
            var arg := Other({});
            var b := Declared({}, false, [arg], Some(a));
            var c := Declared({}, false, [], Some(b));
            var inner: ATM<int> := Declared({}, false, [], Some(c));
            Target(inner, [InnerTypeEntry, TypeArgumentEntry(0)], AsWritten) == Some(b) &&
            Target(inner, [InnerTypeEntry, TypeArgumentEntry(0)], Intended) == Some(arg) &&
            LocationATM(inner, [InnerTypeEntry], AsWritten) == Crashed &&
            Target(inner, [InnerTypeEntry], Intended) == Some(b)
  {
    var a := Declared({}, false, [], None);
    var arg := Other({});
    var b := Declared({}, false, [arg], Some(a));
    var c := Declared({}, false, [], Some(b));
    var inner: ATM<int> := Declared({}, false, [], Some(c));
    var loc := [InnerTypeEntry, TypeArgumentEntry(0)];
    assert Depth(a) == 0 && Depth(b) == 1 && Depth(c) == 2 && Depth(inner) == 3;
    assert InnerRun(loc) == 1 by { assert loc[1..] == [TypeArgumentEntry(0)]; }
    assert InnerRun([InnerTypeEntry]) == 1 by { assert [InnerTypeEntry][1..] == []; }
    assert loc[1..][1..] == [];
    assert StepOut(c, loc[1..], 1, AsWritten) == Prepend(EnclStep, LocationATM(b, [], AsWritten));
    assert LocationATM(inner, loc, AsWritten) == StepOut(inner, loc, 2, AsWritten);
    assert LocationATM(inner, loc, AsWritten) == Located([EnclStep, EnclStep]);
    assert StepOut(c, [], 1, AsWritten) == Crashed;
    assert LocationATM(inner, [InnerTypeEntry], AsWritten) == StepOut(inner, [InnerTypeEntry], 2, AsWritten);
    assert At(inner, [EnclStep, EnclStep]) == Some(b) by {
      assert [EnclStep, EnclStep][1..] == [EnclStep];
    }
    InnerTypeIntended(inner, 1, [TypeArgumentEntry(0)]);
    assert seq(1, _ => InnerTypeEntry) + [TypeArgumentEntry(0)] == loc;
    assert Outward(inner, 2) == Outward(c, 1) == Outward(b, 0) == b;
    NavigationRules(b, [TypeArgumentEntry(0)], Intended);
    assert [TypeArgumentEntry(0)][1..] == [];
    InnerTypeIntended(inner, 1, []);
    assert seq(1, _ => InnerTypeEntry) + [] == [InnerTypeEntry];
    assert [InnerTypeEntry][1..] == [];
  }

  // ---------------------------------------------------------------------
  // Bound indices.

  function IsInterface<Q(==)>(t: ATM<Q>): bool
  {
    t.Declared? && t.isInterface
  }

  /**
   * The bound index adjustment: the class file numbers the class bound 0
   * and the interface bounds from 1, while the bound list leaves out an
   * implicit Object class bound, so when the first listed bound is an
   * interface the index is one too high. The adjusted index must lie in
   * the list; an empty list fails when its first bound is read.
   */
  function AdjustedBound<Q(==)>(bounds: seq<ATM<Q>>, boundIndex: int): (r: Option<nat>)
    ensures r.Some? ==> r.value < |bounds|
  {
    if |bounds| == 0 then None
    else
      var idx := if IsInterface(bounds[0]) then boundIndex - 1 else boundIndex;
      if 0 <= idx < |bounds| then Some(idx) else None
  }

  /** The bounds as the class file numbers them: with the implicit Object class bound in front when it was left out. */
  function ClassFileBounds<Q(==)>(bounds: seq<ATM<Q>>, objectBound: ATM<Q>): seq<ATM<Q>>
    requires |bounds| > 0
  {
    if IsInterface(bounds[0]) then [objectBound] + bounds else bounds
  }

  /**
   * An adjusted index selects the bound the class-file index names; only
   * out-of-range indices and the implicit Object bound are rejected.
   */
  lemma BoundIndexSpec<Q>(bounds: seq<ATM<Q>>, boundIndex: int, objectBound: ATM<Q>)
    requires |bounds| > 0
    ensures AdjustedBound(bounds, boundIndex).Some? ==>
              ClassFileBounds(bounds, objectBound)[boundIndex] == bounds[AdjustedBound(bounds, boundIndex).value]
    ensures AdjustedBound(bounds, boundIndex).None? <==>
              !(0 <= boundIndex < |ClassFileBounds(bounds, objectBound)|) || (IsInterface(bounds[0]) && boundIndex == 0)
  {
  }

  // ---------------------------------------------------------------------
  // Annotating.

  /** A type annotation: its qualifier and the type path it sits at. */
  datatype TypeAnno<Q> = TypeAnno(qual: Q, location: seq<TypePathEntry>)

  /**
   * annotate(type, anno) at an empty location: on a type variable the
   * qualifier of the same hierarchy is removed first (so a declaration's
   * qualifier does not stay on the use), then the qualifier is added.
   */
  function AnnotateHere<H(==), Q(==)>(t: ATM<Q>, q: Q, hierarchyOf: Q -> H): (r: ATM<Q>)
    ensures q in r.annos && r.annos <= t.annos + {q}
    ensures t.TypeVar? ==> forall a :: a in r.annos && hierarchyOf(a) == hierarchyOf(q) ==> a == q
    ensures forall a :: a in t.annos && !(t.TypeVar? && hierarchyOf(a) == hierarchyOf(q)) ==> a in r.annos
    ensures r == WithAnnos(t, r.annos)
  {
    if t.TypeVar? then WithAnnos(t, (set a | a in t.annos && hierarchyOf(a) != hierarchyOf(q)) + {q})
    else WithAnnos(t, t.annos + {q})
  }

  /**
   * annotate(type, anno): at an empty location as AnnotateHere, otherwise
   * the qualifier is added to the type the location reaches. None when
   * navigation fails.
   */
  function Annotate<H(==), Q(==)>(t: ATM<Q>, anno: TypeAnno<Q>, hierarchyOf: Q -> H, m: Mode): (r: Option<ATM<Q>>)
    ensures r.Some? ==> r.value.Intersection? == t.Intersection?
  {
    if anno.location == [] then Some(AnnotateHere(t, anno.qual, hierarchyOf))
    else match LocationATM(t, anno.location, m)
      case Located(p) => (NavigationSound(t, anno.location, m); Some(UpdateAt(t, p, {anno.qual})))
      case _ => None
  }

  /**
   * With a non-empty location, annotating fails exactly when navigation
   * does, and otherwise the target gains the qualifier while the root keeps
   * its own.
   */
  lemma AnnotateReachesTarget<H, Q>(t: ATM<Q>, anno: TypeAnno<Q>, hierarchyOf: Q -> H, m: Mode)
    requires anno.location != []
    ensures Annotate(t, anno, hierarchyOf, m).Some? <==> LocationATM(t, anno.location, m).Located?
    ensures Annotate(t, anno, hierarchyOf, m).Some? ==>
              Target(t, anno.location, m).Some? &&
              At(Annotate(t, anno, hierarchyOf, m).value, LocationATM(t, anno.location, m).path) ==
                Some(WithAnnos(Target(t, anno.location, m).value, Target(t, anno.location, m).value.annos + {anno.qual}))
  {
    var n := LocationATM(t, anno.location, m);
    if n.Located? {
      NavigationSound(t, anno.location, m);
      UpdateAtTarget(t, n.path, {anno.qual});
    }
  }

  /** A location without INNER_TYPE entries is navigated alike under both rules. */
  lemma {:induction false} ModesAgree<Q>(t: ATM<Q>, loc: seq<TypePathEntry>)
    requires forall i :: 0 <= i < |loc| ==> loc[i] != InnerTypeEntry
    ensures LocationATM(t, loc, AsWritten) == LocationATM(t, loc, Intended)
    decreases Size(t)
  {
    if loc != [] {
      if t.Declared? {
        if loc[0].TypeArgumentEntry? && loc[0].arg < |t.typeArgs| {
          ModesAgree(Child(t, ArgStep(loc[0].arg)).value, loc[1..]);
        }
      } else if t.Wildcard? {
        if loc[0] == WildcardEntry && |GetBounds(t)| > 0 {
          ModesAgree(GetBounds(t)[0], loc[1..]);
        }
      } else if t.Array? {
        if loc[0] == ArrayEntry {
          ModesAgree(t.component, loc[1..]);
        }
      }
    }
  }

  /** So annotate as written and as intended differ only on locations with INNER_TYPE entries. */
  lemma AnnotateModesAgree<H, Q>(t: ATM<Q>, anno: TypeAnno<Q>, hierarchyOf: Q -> H)
    requires forall i :: 0 <= i < |anno.location| ==> anno.location[i] != InnerTypeEntry
    ensures Annotate(t, anno, hierarchyOf, AsWritten) == Annotate(t, anno, hierarchyOf, Intended)
  {
    ModesAgree(t, anno.location);
  }

  /**
   * On the example of InnerTypeAsWritten, annotating at [INNER_TYPE] fails
   * as written, where the intended navigation annotates B.
   */
  lemma AnnotateInnerTypeAsWritten<H>(q: int, h: int -> H)
    ensures var a := Declared({}, false, [], None);
            var b := Declared({}, false, [Other({})], Some(a));
            var c := Declared({}, false, [], Some(b));
            var inner: ATM<int> := Declared({}, false, [], Some(c));
            var anno := TypeAnno(q, [InnerTypeEntry]);
            Annotate(inner, anno, h, AsWritten).None? &&
            Annotate(inner, anno, h, Intended).Some? &&
            At(Annotate(inner, anno, h, Intended).value, LocationATM(inner, [InnerTypeEntry], Intended).path) ==
              Some(WithAnnos(b, {q}))
  {
    var a := Declared({}, false, [], None);
    var b := Declared({}, false, [Other({})], Some(a));
    var c := Declared({}, false, [], Some(b));
    var inner: ATM<int> := Declared({}, false, [], Some(c));
    var anno := TypeAnno(q, [InnerTypeEntry]);
    InnerTypeAsWritten();
    AnnotateReachesTarget(inner, anno, h, Intended);
    assert {} + {q} == {q};
  }

  /** On a type variable a second qualifier of the same hierarchy replaces the first. */
  lemma TypeVarReannotation<H, Q>(t: ATM<Q>, q1: Q, q2: Q, hierarchyOf: Q -> H)
    requires t.TypeVar? && hierarchyOf(q1) == hierarchyOf(q2) && q1 != q2
    ensures q1 !in AnnotateHere(AnnotateHere(t, q1, hierarchyOf), q2, hierarchyOf).annos
  {
  }

  /**
   * annotatePossibleBound: not on a bound, plain annotate; on a bound only
   * type variables and wildcards are allowed, and the adjusted bound index
   * chooses which bound the annotation goes to.
   */
  function AnnotatePossibleBound<H(==), Q(==)>(t: ATM<Q>, anno: TypeAnno<Q>, onBound: bool, boundIndex: int,
                                              hierarchyOf: Q -> H, m: Mode): (r: Option<ATM<Q>>)
  {
    if !onBound then Annotate(t, anno, hierarchyOf, m)
    else if !(t.TypeVar? || t.Wildcard?) then None
    else match AdjustedBound(GetBounds(t), boundIndex)
      case None => None
      case Some(i) =>
        match Annotate(GetBounds(t)[i], anno, hierarchyOf, m)
        case None => None
        case Some(nb) => Some(Replace(t, BoundStep(i), nb))
  }

  /**
   * A bound annotation lands on the bound the adjusted index selects and
   * leaves the variable's own qualifiers alone; on any other kind of type it
   * is a fatal error.
   */
  lemma PossibleBoundSpec<H, Q>(t: ATM<Q>, anno: TypeAnno<Q>, boundIndex: int, hierarchyOf: Q -> H, m: Mode)
    ensures !(t.TypeVar? || t.Wildcard?) ==> AnnotatePossibleBound(t, anno, true, boundIndex, hierarchyOf, m).None?
    ensures (t.TypeVar? || t.Wildcard?) && AnnotatePossibleBound(t, anno, true, boundIndex, hierarchyOf, m).Some? ==>
              var i := AdjustedBound(GetBounds(t), boundIndex).value;
              var r := AnnotatePossibleBound(t, anno, true, boundIndex, hierarchyOf, m).value;
              AdjustedBound(GetBounds(t), boundIndex).Some? &&
              Child(r, BoundStep(i)) == Annotate(GetBounds(t)[i], anno, hierarchyOf, m) &&
              r.annos == t.annos
  {
    if (t.TypeVar? || t.Wildcard?) && AnnotatePossibleBound(t, anno, true, boundIndex, hierarchyOf, m).Some? {
      var i := AdjustedBound(GetBounds(t), boundIndex).value;
      ChildReplace(t, BoundStep(i), Annotate(GetBounds(t)[i], anno, hierarchyOf, m).value);
    }
  }

  // ---------------------------------------------------------------------
  // annotateSupers.

  /** The position kinds annotateSupers distinguishes. */
  datatype PositionKind = ClassExtends | ClassTypeParameter | ClassTypeParameterBound | OtherPosition

  /** A class's type annotation: where it sits and which supertype it names (-1: the superclass). */
  datatype ClassAnno<Q> = ClassAnno(kind: PositionKind, typeIndex: int, anno: TypeAnno<Q>)

  /**
   * The supertype a CLASS_EXTENDS type index names, as an index into the
   * supertype list (the superclass first, when there is one); None is fatal.
   */
  function SuperTarget(hasSuperClass: bool, count: nat, typeIndex: int): (r: Option<nat>)
    requires hasSuperClass ==> count >= 1
    ensures r.Some? ==> r.value < count
    ensures r == Some(0) && hasSuperClass <==> typeIndex == -1 && hasSuperClass
    ensures hasSuperClass && typeIndex >= 0 ==> (r.Some? <==> typeIndex < count - 1) && (r.Some? ==> r.value == typeIndex + 1)
    ensures !hasSuperClass ==> (r.Some? <==> 0 <= typeIndex < count) && (r.Some? ==> r.value == typeIndex)
  {
    var offset := if hasSuperClass then 1 else 0;
    if typeIndex == -1 && hasSuperClass then Some(0)
    else if 0 <= typeIndex < count - offset then Some(typeIndex + offset)
    else None
  }

  /** The effect of one annotation on the supertype list; None is fatal. */
  function SuperStep<H(==), Q(==)>(supertypes: seq<ATM<Q>>, hasSuperClass: bool, a: ClassAnno<Q>,
                                    hierarchyOf: Q -> H, m: Mode): (r: Option<seq<ATM<Q>>>)
    requires hasSuperClass ==> |supertypes| >= 1
    ensures r.Some? ==> |r.value| == |supertypes|
  {
    match a.kind
    case ClassExtends =>
      (match SuperTarget(hasSuperClass, |supertypes|, a.typeIndex)
       case None => None
       case Some(j) =>
         match Annotate(supertypes[j], a.anno, hierarchyOf, m)
         case None => None
         case Some(s) => Some(supertypes[j := s]))
    case ClassTypeParameter => Some(supertypes)
    case ClassTypeParameterBound => Some(supertypes)
    case OtherPosition => None
  }

  /** The supertype list after all of a class's annotations, in order. */
  function SupersAfter<H(==), Q(==)>(supertypes: seq<ATM<Q>>, hasSuperClass: bool, annos: seq<ClassAnno<Q>>,
                                      hierarchyOf: Q -> H, m: Mode): (r: Option<seq<ATM<Q>>>)
    requires hasSuperClass ==> |supertypes| >= 1
    ensures r.Some? ==> |r.value| == |supertypes|
    decreases |annos|
  {
    if annos == [] then Some(supertypes)
    else match SuperStep(supertypes, hasSuperClass, annos[0], hierarchyOf, m)
      case None => None
      case Some(s) => SupersAfter(s, hasSuperClass, annos[1..], hierarchyOf, m)
  }

  /** annotateSupers: each CLASS_EXTENDS annotation goes to the supertype its index names. */
  method AnnotateSupers<H(==), Q(==)>(supertypes: seq<ATM<Q>>, hasSuperClass: bool, annos: seq<ClassAnno<Q>>,
                                       hierarchyOf: Q -> H, m: Mode) returns (r: Option<seq<ATM<Q>>>)
    requires hasSuperClass ==> |supertypes| >= 1
    ensures r == SupersAfter(supertypes, hasSuperClass, annos, hierarchyOf, m)
  {
    var supers := supertypes;
    var i := 0;
    while i < |annos|
      invariant 0 <= i <= |annos| && |supers| == |supertypes|
      invariant SupersAfter(supers, hasSuperClass, annos[i..], hierarchyOf, m) == SupersAfter(supertypes, hasSuperClass, annos, hierarchyOf, m)
    {
      assert annos[i..][1..] == annos[i + 1..];
      var a := annos[i];
      match a.kind {
        case ClassExtends =>
          var j := SuperTarget(hasSuperClass, |supers|, a.typeIndex);
          if j.None? {
            return None;
          }
          var s := Annotate(supers[j.value], a.anno, hierarchyOf, m);
          if s.None? {
            return None;
          }
          supers := supers[j.value := s.value];
        case ClassTypeParameter =>
        case ClassTypeParameterBound =>
        case OtherPosition =>
          return None;
      }
      i := i + 1;
    }
    assert annos[i..] == [];
    return Some(supers);
  }

  /**
   * A single CLASS_EXTENDS annotation changes only the supertype its index
   * names; type-parameter annotations leave every supertype as it was.
   */
  lemma SupersAfterOne<H, Q>(supertypes: seq<ATM<Q>>, hasSuperClass: bool, a: ClassAnno<Q>, hierarchyOf: Q -> H, m: Mode)
    requires hasSuperClass ==> |supertypes| >= 1
    ensures a.kind == ClassTypeParameter || a.kind == ClassTypeParameterBound ==>
              SupersAfter(supertypes, hasSuperClass, [a], hierarchyOf, m) == Some(supertypes)
    ensures a.kind == OtherPosition ==> SupersAfter(supertypes, hasSuperClass, [a], hierarchyOf, m).None?
    ensures a.kind == ClassExtends && SupersAfter(supertypes, hasSuperClass, [a], hierarchyOf, m).Some? ==>
              var j := SuperTarget(hasSuperClass, |supertypes|, a.typeIndex).value;
              var r := SupersAfter(supertypes, hasSuperClass, [a], hierarchyOf, m).value;
              SuperTarget(hasSuperClass, |supertypes|, a.typeIndex).Some? &&
              Some(r[j]) == Annotate(supertypes[j], a.anno, hierarchyOf, m) &&
              forall k :: 0 <= k < |r| && k != j ==> r[k] == supertypes[k]
  {
    assert [a][1..] == [];
  }
}
