# Checker Framework core: qualifier lattices, flow stores, implicit annotations, contract checks

This project is a Dafny model of a slice of the Checker Framework, a pluggable
type-checker for Java. In that system, qualifiers such as `@NonNull`,
`@GuardedBy("lock")` or `@PropertyKey` refine Java types. Qualifiers form
hierarchies, and each hierarchy is a lattice. A dataflow analysis tracks one
qualifier per hierarchy and expression in *stores*, joining stores where
control flow merges. A *tree annotator* gives expression trees their implicit
qualifiers. *TypeFromElement* reads type annotations from class files and
places them inside nested types by following a type path. The visitor
(`BaseTypeVisitor`) checks assignments, overrides and declared
pre- and postconditions.

The modules follow the source files:

| file | module | models |
|---|---|---|
| lattice.dfy | `Lattice` | a qualifier hierarchy as lub/glb/subtype functions with the lattice laws; annotation sets as one qualifier per hierarchy; pointwise `leastUpperBounds`/`greatestLowerBounds`; `addMissingAnnotations` |
| store.dfy | `Stores` | `NullnessStore`: the `isPolyNullNull` flag, its join, and `supersetOf` |
| transferinput.dfy | `Transfer` | `TransferInput`: one regular store or a then/else pair, the views onto them, and their join |
| lock.dfy | `Lock` | the lock-checker qualifier hierarchy and `annotateImplicit`, which rewrites `@GuardedBy` |
| flowtest.dfy | `FlowTest` | the test checker's `isSubtype`, which compares `@Value` qualifiers by their arguments |
| fqn.dfy | `FullyQualifiedName` | the `@FullyQualifiedName` string pattern, as an automaton proved equal to a grammar |
| treeannotator.dfy | `TreeAnnotation` | `TreeAnnotator`: tree-kind, tree-class and string-pattern defaults, and the operator, array and cast rules |
| propkey.dfy | `PropKey` | the property-key tree annotator and `strContains` |
| contracts.dfy | `Contracts` | `BaseTypeVisitor`: pre- and postcondition checks, override checks, purity messages, assignment checks |
| typefromelement.dfy | `TypeFromElement` | type-path navigation, bound-index adjustment, `annotate`, `annotatePossibleBound` and `annotateSupers` |

The shared qualifier hierarchy is a parameter. It is a record of functions, and
its laws are a ghost predicate, because `GraphQualifierHierarchy` and
`QualifierHierarchy` are not part of this model. An annotated type's qualifiers
are a map from hierarchy to qualifier: a type holds at most one qualifier per
hierarchy. `TypeFromElement` is the exception. There a type keeps a set of
qualifiers, so that removing the old type-variable qualifier before adding the
new one is observable.

Objects whose fields the source updates are Dafny classes. These are
`NullnessStore`, `TransferInput`, `TreeAnnotator`, `KeyLookupTreeAnnotator`,
`LockAnnotatedTypeFactory`, the lock checker's annotated type, and the
annotated type that the tree annotator mutates. Each mutating method states
its new state by a specification function. Loops in the source are methods
with loop invariants, proved equal to a recursive specification function,
for example `CheckPreconditions`, `CheckContractsSubset`, `StrContains`,
`CountEnclosing` and `AnnotateSupers`.

`NullnessStore.supersetOf` (checkers/src/checkers/nullness/NullnessStore.java:44-53)
tests `instanceof InitializationStore` and then casts to `NullnessStore`. An
initialization store that is not a nullness store therefore fails the cast.
The model keeps this as an explicit `ClassCastFailure` outcome.

The Javadoc of `checkContractsSubset` (BaseTypeVisitor.java:1915-1918) asks
for the same expression "with the same (or a stronger) annotation". The test at
BaseTypeVisitor.java:1930 is `isSubtype(a.second, b.second)`, which accepts the
same or a *weaker* qualifier in the contract that covers. So an overrider that
strengthens the postcondition `f is NonNull` to `f is Bottom` is reported,
and one that weakens it to `f is Nullable` passes. The override checks take the
coverage relation as a parameter: `AsWrittenRel` is the code's test and
`StrongerRel` the documented one. `Contracts.CheckOverride` called with
`AsWrittenRel` is the source's `checkOverride`; called with `StrongerRel` it is
the corrected check, and `Contracts.CleanOverrideIsBehavioural` is proved for
that one. The difference is recorded under Findings.

In the same way, `TypeFromElement`'s navigation and `annotate` take a `Mode`.
`AsWritten` follows the INNER_TYPE loop of TypeFromElement.java:738-752 as the
code has it, and `Intended` follows section 4.7.20.2 of the Java Virtual
Machine Specification. The two agree on every location without an INNER_TYPE
entry (`TypeFromElement.AnnotateModesAgree`).

## Model

| member | source | states |
|---|---|---|
| Lattice.Dual | framework/src/org/checkerframework/framework/type/TreeAnnotator.java:177 | the dual hierarchy swaps lub and glb and reverses the subtype relation |
| Lattice.DualValid | framework/src/org/checkerframework/framework/type/TreeAnnotator.java:177 | the dual of a lattice is a lattice, so every lub fact carries over to glb |
| Lattice.LubSupremum | framework/src/org/checkerframework/framework/type/TreeAnnotator.java:206 | lub stays in the hierarchy of its arguments and is below c exactly when both arguments are |
| Lattice.LubCommutative | framework/src/org/checkerframework/framework/type/TreeAnnotator.java:258 | lub(a, b) equals lub(b, a) |
| Lattice.LubIdempotent | framework/src/org/checkerframework/framework/type/TreeAnnotator.java:258 | lub(a, a) equals a |
| Lattice.LubAssociative | framework/src/org/checkerframework/framework/type/TreeAnnotator.java:206 | lub is associative, so the order in which initializers are folded does not matter |
| Lattice.GlbCommutative | framework/src/org/checkerframework/framework/type/TreeAnnotator.java:177 | glb(a, b) equals glb(b, a) |
| Lattice.Lubs | framework/src/org/checkerframework/framework/type/TreeAnnotator.java:269 | leastUpperBounds of two annotation sets covers exactly the hierarchies both sets annotate |
| Lattice.Glbs | framework/src/org/checkerframework/framework/type/TreeAnnotator.java:177 | greatestLowerBounds covers exactly the hierarchies both sets annotate |
| Lattice.AddMissing | framework/src/org/checkerframework/framework/type/TreeAnnotator.java:145 | addMissingAnnotations keeps every existing qualifier and adds one only for a hierarchy that lacks one |
| Lattice.AddAll | framework/src/org/checkerframework/framework/type/TreeAnnotator.java:182 | addAnnotations overwrites the hierarchies it names and keeps the others |
| Lattice.AddMissingIdempotent | framework/src/org/checkerframework/framework/type/TreeAnnotator.java:145 | adding the same missing qualifiers twice changes nothing the second time |
| Lattice.LubsWellFormed | framework/src/org/checkerframework/framework/type/TreeAnnotator.java:269 | each qualifier in the pointwise lub belongs to the hierarchy it is filed under |
| Lattice.LubsCommutative | framework/src/org/checkerframework/framework/type/TreeAnnotator.java:269 | the pointwise lub is commutative |
| Lattice.LubsIdempotent | framework/src/org/checkerframework/framework/type/TreeAnnotator.java:269 | the pointwise lub of a well-formed set with itself is that set |
| Lattice.LubsAssociative | framework/src/org/checkerframework/framework/type/TreeAnnotator.java:206 | the pointwise lub is associative |
| Lattice.LubFold | framework/src/org/checkerframework/framework/type/TreeAnnotator.java:202-207 | folding lub over the initializers covers exactly the hierarchies every initializer annotates |
| Lattice.GlbFold | framework/src/org/checkerframework/framework/type/TreeAnnotator.java:171-180 | folding glb over the matching sets covers exactly the hierarchies every set annotates |
| Lattice.LubFoldUpper | framework/src/org/checkerframework/framework/type/TreeAnnotator.java:202-207 | the folded lub is above every initializer's qualifier |
| Lattice.LubFoldLeast | framework/src/org/checkerframework/framework/type/TreeAnnotator.java:202-207 | the folded lub is below any common upper bound |
| Lattice.LubFoldSupremum | framework/src/org/checkerframework/framework/type/TreeAnnotator.java:202-207 | the folded lub is the least upper bound, in both directions |
| Lattice.GlbFoldInfimum | framework/src/org/checkerframework/framework/type/TreeAnnotator.java:171-180 | the folded glb is the greatest lower bound, in both directions |
| Stores.JoinValues | checkers/src/checkers/nullness/NullnessStore.java:34 | the joined store tracks exactly the expressions both stores track |
| Stores.SupersetOf | checkers/src/checkers/nullness/NullnessStore.java:44-53 | a non-initialization store gives false; an initialization store that is not a nullness store fails the cast; a different flag gives false; otherwise the base superset test decides |
| Stores.JoinFlag | checkers/src/checkers/nullness/NullnessStore.java:35-39 | the joined flag is set exactly when both flags are set |
| Stores.JoinStatesCommutative | checkers/src/checkers/nullness/NullnessStore.java:33-41 | the join of two stores is commutative, values and flag together |
| Stores.JoinStatesIdempotent | checkers/src/checkers/nullness/NullnessStore.java:33-41 | joining a well-formed store with itself gives that store |
| Stores.JoinStatesWellFormed | checkers/src/checkers/nullness/NullnessStore.java:33-41 | the join of well-formed stores is well formed |
| Stores.JoinStatesAssociative | checkers/src/checkers/nullness/NullnessStore.java:33-41 | the join is associative |
| Stores.SelfJoinConverges | checkers/src/checkers/nullness/NullnessStore.java:33-53 | a store is a superset of its join with itself, so a fixpoint iteration stops there |
| Stores.NullnessStore.constructor | checkers/src/checkers/nullness/NullnessStore.java:20-25 | a new store is empty and its flag is false |
| Stores.NullnessStore.CopyOf | checkers/src/checkers/nullness/NullnessStore.java:27-30 | the copy has the same values and flag |
| Stores.NullnessStore.Copy | checkers/src/checkers/nullness/NullnessStore.java:27-30 | copy returns a fresh store with the same state |
| Stores.NullnessStore.LeastUpperBound | checkers/src/checkers/nullness/NullnessStore.java:33-41 | returns a fresh store whose state is the join of the two stores |
| Stores.NullnessStore.SupersetOfStore | checkers/src/checkers/nullness/NullnessStore.java:44-53 | for two nullness stores: equal flags and the base superset test |
| Stores.NullnessStore.IsPolyNullNull | checkers/src/checkers/nullness/NullnessStore.java:61-63 | reads the flag |
| Stores.NullnessStore.SetPolyNullNull | checkers/src/checkers/nullness/NullnessStore.java:65-67 | sets the flag and leaves the values unchanged |
| Transfer.InputJoinKeepsSplit | checkers/src/checkers/flow/analysis/TransferInput.java:195-209 | the join holds two stores exactly when either input does; two regular inputs join their stores |
| Transfer.UnifiedViewsAgree | checkers/src/checkers/flow/analysis/TransferInput.java:135-165 | with one store, the regular, then and else views are all that store |
| Transfer.InputJoinCommutative | checkers/src/checkers/flow/analysis/TransferInput.java:195-209 | the join of two inputs is commutative |
| Transfer.InputJoinIdempotent | checkers/src/checkers/flow/analysis/TransferInput.java:195-209 | joining a well-formed input with itself gives that input |
| Transfer.RegularViewOfJoin | checkers/src/checkers/flow/analysis/TransferInput.java:135-141 | the regular view of a join is the join of the regular views |
| Transfer.SplitWithUnified | checkers/src/checkers/flow/analysis/TransferInput.java:199-206 | joining a then/else pair with one store and then merging equals merging first and joining after |
| Transfer.TransferInput.FromResult | checkers/src/checkers/flow/analysis/TransferInput.java:73-81 | a conditional result gives a then/else pair; a regular result gives one store |
| Transfer.TransferInput.FromStore | checkers/src/checkers/flow/analysis/TransferInput.java:97-100 | holds the one store given |
| Transfer.TransferInput.FromStores | checkers/src/checkers/flow/analysis/TransferInput.java:112-116 | holds the given then and else stores |
| Transfer.TransferInput.CopyOf | checkers/src/checkers/flow/analysis/TransferInput.java:121-129 | the copy has the same abstract state in fresh, unaliased stores |
| Transfer.TransferInput.Copy | checkers/src/checkers/flow/analysis/TransferInput.java:183-185 | copy returns a fresh input with the same abstract state |
| Transfer.TransferInput.GetRegularStore | checkers/src/checkers/flow/analysis/TransferInput.java:135-141 | the one store itself, or a fresh store holding the join of then and else |
| Transfer.TransferInput.GetThenStore | checkers/src/checkers/flow/analysis/TransferInput.java:147-152 | the then store, or the one store when there is only one |
| Transfer.TransferInput.GetElseStore | checkers/src/checkers/flow/analysis/TransferInput.java:158-165 | the else store, or a fresh copy of the one store |
| Transfer.TransferInput.ContainsTwoStores | checkers/src/checkers/flow/analysis/TransferInput.java:178-180 | true exactly when the input is a then/else pair |
| Transfer.TransferInput.LeastUpperBound | checkers/src/checkers/flow/analysis/TransferInput.java:195-209 | a fresh input whose state is the join, holding two stores when either side does |
| Lock.GraphIsChain | checker/src/org/checkerframework/checker/lock/LockAnnotatedTypeFactory.java:168-179 | the lock hierarchy is the chain bottom, GuardedBy, top |
| Lock.IsSubtypeIsChain | checker/src/org/checkerframework/checker/lock/LockAnnotatedTypeFactory.java:188-201 | isSubtype compares qualifier kinds along that chain |
| Lock.IsSubtype | checker/src/org/checkerframework/checker/lock/LockAnnotatedTypeFactory.java:188-201 | bottom is below every GuardedBy; other pairs go to the graph with lock names erased |
| Lock.BottomBelowEveryGuardedBy | checker/src/org/checkerframework/checker/lock/LockAnnotatedTypeFactory.java:188-201 | bottom is below every GuardedBy, which is strictly below top |
| Lock.GuardedByValuesIgnored | checker/src/org/checkerframework/checker/lock/LockAnnotatedTypeFactory.java:188-201 | any two GuardedBy qualifiers are subtypes of each other, whatever their lock expressions |
| Lock.IsSubtypePreorder | checker/src/org/checkerframework/checker/lock/LockAnnotatedTypeFactory.java:188-201 | isSubtype is reflexive and transitive but not antisymmetric |
| Lock.Receiver | checker/src/org/checkerframework/checker/lock/LockAnnotatedTypeFactory.java:82-90 | there is a receiver exactly when the method select or expression is a member select once parentheses are skipped |
| Lock.HeldLocksRemovedSpec | checker/src/org/checkerframework/checker/lock/LockAnnotatedTypeFactory.java:63-73 | GuardedBy a held lock becomes bottom; anything else is unchanged; the rewrite is idempotent |
| Lock.ThisReplacedSpec | checker/src/org/checkerframework/checker/lock/LockAnnotatedTypeFactory.java:92-111 | GuardedBy("this") is rewritten exactly when a receiver exists and the most enclosing this is not dereferenced, and then to the receiver's text |
| Lock.ThisOnFieldAccess | checker/src/org/checkerframework/checker/lock/LockAnnotatedTypeFactory.java:92-111 | on o.f, this becomes the text of o; an identifier or an enclosing dereference keeps this |
| Lock.ItselfReplacedSpec | checker/src/org/checkerframework/checker/lock/LockAnnotatedTypeFactory.java:113-129 | GuardedBy("itself") on an identifier or member select becomes the tree's text; nothing else changes |
| Lock.ImplicitQualGuarantees | checker/src/org/checkerframework/checker/lock/LockAnnotatedTypeFactory.java:139-153 | after annotateImplicit no GuardedBy names a held lock, and itself is replaced on rewritable trees |
| Lock.LockType.constructor | checker/src/org/checkerframework/checker/lock/LockAnnotatedTypeFactory.java:134-153 | an annotated type with its lock qualifier and the jcip GuardedBy if written |
| Lock.LockType.HasGuardedBy | checker/src/org/checkerframework/checker/lock/LockAnnotatedTypeFactory.java:134-137 | either the checker's GuardedBy or jcip's is present |
| Lock.LockAnnotatedTypeFactory.constructor | checker/src/org/checkerframework/checker/lock/LockAnnotatedTypeFactory.java:41-53 | starts with no held locks |
| Lock.LockAnnotatedTypeFactory.SetHeldLocks | checker/src/org/checkerframework/checker/lock/LockAnnotatedTypeFactory.java:55-57 | replaces the held locks |
| Lock.LockAnnotatedTypeFactory.GetHeldLock | checker/src/org/checkerframework/checker/lock/LockAnnotatedTypeFactory.java:59-61 | the held locks as last set |
| Lock.LockAnnotatedTypeFactory.RemoveHeldLocks | checker/src/org/checkerframework/checker/lock/LockAnnotatedTypeFactory.java:63-73 | the type's qualifier becomes HeldLocksRemoved of the old one |
| Lock.LockAnnotatedTypeFactory.ReplaceThis | checker/src/org/checkerframework/checker/lock/LockAnnotatedTypeFactory.java:92-111 | the type's qualifier becomes ThisReplaced of the old one |
| Lock.LockAnnotatedTypeFactory.ReplaceItself | checker/src/org/checkerframework/checker/lock/LockAnnotatedTypeFactory.java:113-129 | the type's qualifier becomes ItselfReplaced of the old one |
| Lock.LockAnnotatedTypeFactory.AnnotateImplicit | checker/src/org/checkerframework/checker/lock/LockAnnotatedTypeFactory.java:139-153 | the new qualifier is ImplicitQual of the old state, and it names no held lock |
| Lock.LockAnnotatedTypeFactory.AliasedAnnotation | checker/src/org/checkerframework/checker/lock/LockAnnotatedTypeFactory.java:155-165 | jcip's GuardedBy maps to GuardedBy with the same value; other names go to the superclass |
| FlowTest.IsSubtype | checkers/tests/src/tests/util/FlowTestChecker.java:52-64 | equal Value qualifiers only, else the graph on the kinds with Value arguments erased |
| FlowTest.ValueSubtypeIffSame | checkers/tests/src/tests/util/FlowTestChecker.java:53-56 | two Value qualifiers are subtypes exactly when their arguments are equal |
| FlowTest.OneSidedValueErased | checkers/tests/src/tests/util/FlowTestChecker.java:57-63 | when only one side is a Value, its arguments are ignored and the graph decides |
| FlowTest.NonValueDelegated | checkers/tests/src/tests/util/FlowTestChecker.java:63 | with no Value involved, the graph decides |
| FlowTest.BottomIsBottom | checkers/tests/src/tests/util/FlowTestChecker.java:47-49 | Bottom is a subtype of every qualifier |
| FlowTest.IsSubtypePartialOrder | checkers/tests/src/tests/util/FlowTestChecker.java:52-64 | for a partial-order graph, isSubtype is reflexive, antisymmetric and transitive |
| FullyQualifiedName.AcceptsRendered | checkers/src/checkers/signature/quals/FullyQualifiedName.java:28 | every dot-joined identifier list followed by brackets matches the pattern |
| FullyQualifiedName.AcceptedIsRendered | checkers/src/checkers/signature/quals/FullyQualifiedName.java:28 | every matching string is such a list followed by brackets |
| FullyQualifiedName.ForeignCharacterRejects | checkers/src/checkers/signature/quals/FullyQualifiedName.java:28 | a character outside letters, digits, underscore, dot and brackets rules out a match |
| FullyQualifiedName.DocumentedExamples | checkers/src/checkers/signature/quals/FullyQualifiedName.java:13-21 | the two documented names match |
| FullyQualifiedName.ArrayNameAccepted | checkers/src/checkers/signature/quals/FullyQualifiedName.java:28 | an array name such as String[][] matches |
| FullyQualifiedName.BinaryNameRejected | checkers/src/checkers/signature/quals/FullyQualifiedName.java:23-24 | a binary name with '$' does not match |
| FullyQualifiedName.MalformedNamesRejected | checkers/src/checkers/signature/quals/FullyQualifiedName.java:28 | the empty string, a leading digit, a double dot, a trailing dot and a dot after brackets do not match |
| TreeAnnotation.UpdateMapping | framework/src/org/checkerframework/framework/type/TreeAnnotator.java:110-132 | updateMappingToMutableSet fails exactly when the key already has a different qualifier in that hierarchy; otherwise it adds it and leaves other keys alone |
| TreeAnnotation.KindTakesPrecedence | framework/src/org/checkerframework/framework/type/TreeAnnotator.java:143-145 | a known tree kind decides the defaults and the class map is not touched |
| TreeAnnotation.InterfaceDefaultsKeep | framework/src/org/checkerframework/framework/type/TreeAnnotator.java:152-158 | the interface loop only adds missing qualifiers and only adds map entries for the tree's class |
| TreeAnnotation.DefaultedFillsOnlyMissing | framework/src/org/checkerframework/framework/type/TreeAnnotator.java:135-161 | defaultAction never overwrites a qualifier the type already has |
| TreeAnnotation.DefaultedMemoizes | framework/src/org/checkerframework/framework/type/TreeAnnotator.java:152-158 | after a mapped interface is found, the tree's own class is in the map |
| TreeAnnotation.MatchingSets | framework/src/org/checkerframework/framework/type/TreeAnnotator.java:171-180 | the matching sets are empty exactly when no pattern matches, and each comes from a pattern |
| TreeAnnotation.PatternDefaultIsGlb | framework/src/org/checkerframework/framework/type/TreeAnnotator.java:167-186 | the string-literal default is the greatest lower bound of every matching pattern's qualifier |
| TreeAnnotation.MatchingSetsMembers | framework/src/org/checkerframework/framework/type/TreeAnnotator.java:171-180 | every matching pattern contributes its set |
| TreeAnnotation.NoMatchNoDefault | framework/src/org/checkerframework/framework/type/TreeAnnotator.java:181-183 | there is no default exactly when no pattern matches |
| TreeAnnotation.NewArrayPost | framework/src/org/checkerframework/framework/type/TreeAnnotator.java:214-246 | the component qualifiers are either prev or the context's component qualifiers |
| TreeAnnotation.NewArrayPostChoice | framework/src/org/checkerframework/framework/type/TreeAnnotator.java:217-236 | the context is chosen only when component kinds agree, prev is below it, and it is non-empty whenever prev is |
| TreeAnnotation.ArrayPrevIsLub | framework/src/org/checkerframework/framework/type/TreeAnnotator.java:197-210 | with initializers, prev is their least upper bound |
| TreeAnnotation.OperatorResultIsLub | framework/src/org/checkerframework/framework/type/TreeAnnotator.java:253-272 | an operator's missing qualifiers are filled with the least upper bound of its operands' |
| TreeAnnotation.CastRules | framework/src/org/checkerframework/framework/type/TreeAnnotator.java:297-316 | a type-variable cast takes the expression's direct qualifiers only from a type variable; other casts take its effective qualifiers; existing qualifiers stay |
| TreeAnnotation.TreeAnnotator.constructor | framework/src/org/checkerframework/framework/type/TreeAnnotator.java:76-108 | starts with empty kind, class and pattern maps |
| TreeAnnotation.TreeAnnotator.AddTreeKind | framework/src/org/checkerframework/framework/type/TreeAnnotator.java:118-124 | updates the kind map as UpdateMapping does; false stands for the abort |
| TreeAnnotation.TreeAnnotator.AddTreeClass | framework/src/org/checkerframework/framework/type/TreeAnnotator.java:110-116 | updates the class map as UpdateMapping does; false stands for the abort |
| TreeAnnotation.TreeAnnotator.AddStringPattern | framework/src/org/checkerframework/framework/type/TreeAnnotator.java:126-132 | appends a fresh pattern entry holding the one qualifier |
| TreeAnnotation.TreeAnnotator.DefaultAction | framework/src/org/checkerframework/framework/type/TreeAnnotator.java:135-161 | a null tree or type changes nothing; otherwise the type and class map become Defaulted of the old ones |
| TreeAnnotation.TreeAnnotator.VisitLiteral | framework/src/org/checkerframework/framework/type/TreeAnnotator.java:167-186 | a string literal gets the pattern default added, then the default action runs |
| TreeAnnotation.TreeAnnotator.PrevIsSubtype | framework/src/org/checkerframework/framework/type/TreeAnnotator.java:223-229 | true exactly when prev is below the context in every hierarchy both annotate |
| TreeAnnotation.TreeAnnotator.LubOfInitializers | framework/src/org/checkerframework/framework/type/TreeAnnotator.java:202-207 | the loop computes the folded least upper bound |
| TreeAnnotation.TreeAnnotator.ChoosePost | framework/src/org/checkerframework/framework/type/TreeAnnotator.java:214-246 | computes the component qualifiers NewArrayPost specifies |
| TreeAnnotation.TreeAnnotator.VisitNewArray | framework/src/org/checkerframework/framework/type/TreeAnnotator.java:189-250 | the component gets the missing post qualifiers, then the default action runs on the array |
| TreeAnnotation.TreeAnnotator.VisitCompoundAssignment | framework/src/org/checkerframework/framework/type/TreeAnnotator.java:253-261 | adds the missing lub of both sides, then the default action runs |
| TreeAnnotation.TreeAnnotator.VisitBinary | framework/src/org/checkerframework/framework/type/TreeAnnotator.java:264-272 | adds the missing lub of the operands' effective qualifiers, then the default action runs |
| TreeAnnotation.TreeAnnotator.VisitUnary | framework/src/org/checkerframework/framework/type/TreeAnnotator.java:275-281 | adds the operand's missing qualifiers, then the default action runs |
| TreeAnnotation.TreeAnnotator.VisitTypeCast | framework/src/org/checkerframework/framework/type/TreeAnnotator.java:297-316 | adds the cast qualifiers CastRules describes, then the default action runs |
| PropKey.PKLattice | checkers/src/checkers/propkey/PropertyKeyAnnotatedTypeFactory.java:229-231 | the property-key hierarchy orders qualifiers by rank: bottom, PropertyKey, unqualified |
| PropKey.PKLatticeValid | checkers/src/checkers/propkey/PropertyKeyAnnotatedTypeFactory.java:229-231 | that hierarchy satisfies the lattice laws |
| PropKey.IndexOfDot | checkers/src/checkers/propkey/PropertyKeyAnnotatedTypeFactory.java:121 | the first dot's index, or -1 exactly when there is no dot |
| PropKey.StrContains | checkers/src/checkers/propkey/PropertyKeyAnnotatedTypeFactory.java:113-125 | true exactly when some dot-aligned suffix of the key, the whole key included, is a message key |
| PropKey.StrContainsExamples | checkers/src/checkers/propkey/PropertyKeyAnnotatedTypeFactory.java:105-110 | the documented x.y.z against y.z example holds, and a suffix not at a dot does not count |
| PropKey.KeyAnnosSpec | checkers/src/checkers/propkey/PropertyKeyAnnotatedTypeFactory.java:76-88 | an annotated literal keeps its qualifier; an unannotated string literal becomes PropertyKey exactly when it is a lookup key |
| PropKey.RemoveAnnotation | checkers/src/checkers/propkey/PropertyKeyAnnotatedTypeFactory.java:93 | removes exactly the given qualifier and keeps the rest |
| PropKey.KeyLookupTreeAnnotator.constructor | checkers/src/checkers/propkey/PropertyKeyAnnotatedTypeFactory.java:42-54 | the base annotator maps the null literal to bottom and nothing else |
| PropKey.KeyLookupTreeAnnotator.VisitLiteral | checkers/src/checkers/propkey/PropertyKeyAnnotatedTypeFactory.java:76-88 | the key rule applies, then the base annotator's visitLiteral |
| PropKey.KeyLookupTreeAnnotator.VisitBinary | checkers/src/checkers/propkey/PropertyKeyAnnotatedTypeFactory.java:91-95 | removes PropertyKey and does nothing else |
| PropKey.KeyLookupTreeAnnotator.VisitCompoundAssignment | checkers/src/checkers/propkey/PropertyKeyAnnotatedTypeFactory.java:98-102 | removes PropertyKey and does nothing else |
| PropKey.OperatorResultNotKey | checkers/src/checkers/propkey/PropertyKeyAnnotatedTypeFactory.java:90-102 | an operator result is never a PropertyKey, and other qualifiers are kept |
| PropKey.NullLiteralIsBottom | checkers/src/checkers/propkey/PropertyKeyAnnotatedTypeFactory.java:52 | an unannotated null literal defaults to bottom |
| Contracts.Inferred | framework/src/org/checkerframework/common/basetype/BaseTypeVisitor.java:940-946 | the store's value for the receiver in the qualifier's hierarchy, or none when the store has none |
| Contracts.CheckContract | framework/src/org/checkerframework/common/basetype/BaseTypeVisitor.java:940-946 | checkContract: an inferred qualifier exists and is a subtype of the necessary one |
| Contracts.CheckContractMonotone | framework/src/org/checkerframework/common/basetype/BaseTypeVisitor.java:940-946 | a missing value fails; a sharper inferred value or a weaker requirement still passes |
| Contracts.CheckPreconditions | framework/src/org/checkerframework/common/basetype/BaseTypeVisitor.java:853-895 | the loop reports what PreconditionReports specifies |
| Contracts.CheckPrecondition | framework/src/org/checkerframework/common/basetype/BaseTypeVisitor.java:864-891 | one precondition yields the report PreconditionReport gives: one exactly when its qualifier is supported and the store before the call does not satisfy it |
| Contracts.PreconditionReportsSpec | framework/src/org/checkerframework/common/basetype/BaseTypeVisitor.java:853-895 | each supported, unsatisfied precondition is reported as often as it is listed, and nothing else is reported |
| Contracts.CheckPreconditionsAsWritten | framework/src/org/checkerframework/common/basetype/BaseTypeVisitor.java:853-895 | the loop as written, which returns at the first unsupported precondition |
| Contracts.AsWrittenChecksOnlyPrefix | framework/src/org/checkerframework/common/basetype/BaseTypeVisitor.java:865-867 | as written, only the preconditions before the first unsupported one are checked |
| Contracts.UnsupportedFirstHidesViolation | framework/src/org/checkerframework/common/basetype/BaseTypeVisitor.java:865-867 | an unsupported precondition listed first hides a violated one after it |
| Contracts.CheckPostconditions | framework/src/org/checkerframework/common/basetype/BaseTypeVisitor.java:484-535 | the loop reports what PostconditionReports specifies |
| Contracts.PostconditionReportsSpec | framework/src/org/checkerframework/common/basetype/BaseTypeVisitor.java:484-535 | a postcondition is reported exactly when it is supported, there is an exit store, and the store does not satisfy it |
| Contracts.CondStoreSpec | framework/src/org/checkerframework/common/basetype/BaseTypeVisitor.java:636-657 | a return site gives no store when it has none or returns the opposite literal; otherwise its then or else store |
| Contracts.CheckAtReturns | framework/src/org/checkerframework/common/basetype/BaseTypeVisitor.java:623-658 | the loop over return sites reports what SiteReports specifies |
| Contracts.CheckAtReturn | framework/src/org/checkerframework/common/basetype/BaseTypeVisitor.java:636-657 | one return statement yields the report SiteReport gives: one exactly when its store for the guarded result exists and fails the contract |
| Contracts.SiteReportsSpec | framework/src/org/checkerframework/common/basetype/BaseTypeVisitor.java:623-658 | a return site is reported exactly when its store for the guarded result exists and fails the contract |
| Contracts.CheckConditionalPostconditions | framework/src/org/checkerframework/common/basetype/BaseTypeVisitor.java:579-665 | the loop reports what CondPostReports specifies |
| Contracts.NonBooleanOnlyReturnTypeReports | framework/src/org/checkerframework/common/basetype/BaseTypeVisitor.java:610-621 | a non-boolean method gets only return-type reports, at most one per conditional postcondition |
| Contracts.FindCover | framework/src/org/checkerframework/common/basetype/BaseTypeVisitor.java:1925-1935 | finds a covering contract exactly when one exists |
| Contracts.ContractReports | framework/src/org/checkerframework/common/basetype/BaseTypeVisitor.java:1841-1895 | the contract and purity reports of checkOverride under a coverage relation |
| Contracts.CheckContractsSubset | framework/src/org/checkerframework/common/basetype/BaseTypeVisitor.java:1920-1943 | reports exactly the required contracts that have no cover |
| Contracts.FilterConditionalPostconditions | framework/src/org/checkerframework/common/basetype/BaseTypeVisitor.java:1904-1913 | keeps exactly the conditional postconditions guarded by the given result |
| Contracts.GuardedPartition | framework/src/org/checkerframework/common/basetype/BaseTypeVisitor.java:1904-1913 | the true and false filters together account for every conditional postcondition |
| Contracts.GuardedEq | framework/src/org/checkerframework/common/basetype/BaseTypeVisitor.java:1904-1913 | any set with the filter's membership is the filter's result |
| Contracts.CoverageIsImplication | framework/src/org/checkerframework/common/basetype/BaseTypeVisitor.java:1920-1943 | with the corrected direction, a store that satisfies the overrider's contracts satisfies the overridden ones |
| Contracts.SubsetDirectionAsWritten | framework/src/org/checkerframework/common/basetype/BaseTypeVisitor.java:1841-1883 | as written, a weaker overrider postcondition passes and a stronger one is reported |
| Contracts.CheckParams | framework/src/org/checkerframework/common/basetype/BaseTypeVisitor.java:1793-1819 | passes exactly when each overridden parameter type is a subtype of the overrider's |
| Contracts.ParamReportsSpec | framework/src/org/checkerframework/common/basetype/BaseTypeVisitor.java:1793-1819 | parameter i is reported exactly when it fails contravariance |
| Contracts.CheckOverrideTypes | framework/src/org/checkerframework/common/basetype/BaseTypeVisitor.java:1768-1819 | passes exactly when the return type is covariant (for a non-void overrider), every parameter contravariant and the receiver contravariant; reports one entry for each failing return, parameter and receiver check |
| Contracts.CheckOverride | framework/src/org/checkerframework/common/basetype/BaseTypeVisitor.java:1743-1898 | skipped uses pass silently; otherwise the result is the type check and the reports are the type reports plus ContractReports under the given relation: with AsWrittenRel the source's checkOverride, with StrongerRel the corrected check |
| Contracts.CheckOverrideContracts | framework/src/org/checkerframework/common/basetype/BaseTypeVisitor.java:1841-1895 | reports exactly ContractReports under the given relation: the uncovered contracts of the four subset checks (postconditions, preconditions, true and false conditional postconditions) plus one purity report when the overrider lacks a purity kind of the overridden method; AsWrittenRel is the source's test at :1930 |
| Contracts.CleanOverrideIsBehavioural | framework/src/org/checkerframework/common/basetype/BaseTypeVisitor.java:1841-1898 | corrected relation (StrongerRel): an override with no contract reports has stronger postconditions, weaker preconditions and at least the purity |
| Contracts.OverrideDirectionAsWritten | framework/src/org/checkerframework/common/basetype/BaseTypeVisitor.java:1841-1849 | a whole override that strengthens a postcondition from weak to strong gets one postcondition report under the code's relation and none under the documented one |
| Contracts.EmptyReports | framework/src/org/checkerframework/common/basetype/BaseTypeVisitor.java:1920-1943 | no report means every required contract is covered |
| Contracts.PurityPrefixSpec | framework/src/org/checkerframework/common/basetype/BaseTypeVisitor.java:445-477 | the message prefix names exactly the missing purity kinds |
| Contracts.AppendPrefixed | framework/src/org/checkerframework/common/basetype/BaseTypeVisitor.java:458-462 | appends each reason with the prefix, in order |
| Contracts.ReportPurityErrors | framework/src/org/checkerframework/common/basetype/BaseTypeVisitor.java:445-477 | reports what PurityMessages specifies |
| Contracts.PurityMessagesSelective | framework/src/org/checkerframework/common/basetype/BaseTypeVisitor.java:445-477 | the messages are the prefixed not-both reasons, plus the side-effect-free reasons exactly when that kind is missing, plus the deterministic reasons exactly when that kind is missing |
| Contracts.SharedMonotonic | framework/src/org/checkerframework/common/basetype/BaseTypeVisitor.java:1516-1526 | finds a monotonic qualifier on both value and variable exactly when one exists |
| Contracts.CommonAssignmentCheck | framework/src/org/checkerframework/common/basetype/BaseTypeVisitor.java:1478-1544 | reports what AssignmentReports specifies |
| Contracts.AssignmentReportsSpec | framework/src/org/checkerframework/common/basetype/BaseTypeVisitor.java:1478-1544 | an unannotated type-variable local accepts anything; otherwise the error key is reported exactly when the value is not a subtype, and at most one diagnostic is issued |
| Contracts.CheckConstructorInvocation | framework/src/org/checkerframework/common/basetype/BaseTypeVisitor.java:1669-1682 | succeeds exactly when it reports nothing |
| Contracts.ConstructorInvocationSymmetric | framework/src/org/checkerframework/common/basetype/BaseTypeVisitor.java:1669-1682 | the check is symmetric in its two types and accepts equal types |
| TypeFromElement.GetBounds | framework/src/org/checkerframework/framework/type/TypeFromElement.java:832-861 | each bound is a strict part of the type: none, an intersection's members, or the one bound |
| TypeFromElement.LocationATM | framework/src/org/checkerframework/framework/type/TypeFromElement.java:694-711 | getLocationTypeATM: empty location is the type; declared, wildcard and array types go on; other kinds abort |
| TypeFromElement.LocationADT | framework/src/org/checkerframework/framework/type/TypeFromElement.java:713-763 | getLocationTypeADT: type arguments in range, INNER_TYPE runs too long, exactly as long, or shorter than the enclosing chain; anything else stays |
| TypeFromElement.StepOut | framework/src/org/checkerframework/framework/type/TypeFromElement.java:738-752 | the outward loop; as written each step also drops an entry and an empty list crashes |
| TypeFromElement.LocationAWT | framework/src/org/checkerframework/framework/type/TypeFromElement.java:784-802 | getLocationTypeAWT: a WILDCARD entry goes into the first bound |
| TypeFromElement.LocationAAT | framework/src/org/checkerframework/framework/type/TypeFromElement.java:804-817 | getLocationTypeAAT: an ARRAY entry goes into the component; anything else aborts |
| TypeFromElement.ModesAgree | framework/src/org/checkerframework/framework/type/TypeFromElement.java:694-817 | a location without INNER_TYPE entries navigates alike as written and as intended |
| TypeFromElement.NavigationRules | framework/src/org/checkerframework/framework/type/TypeFromElement.java:694-817 | empty location, type arguments in and out of range, array components, wildcard bounds, and the kinds that abort |
| TypeFromElement.NavigationSound | framework/src/org/checkerframework/framework/type/TypeFromElement.java:694-817 | a successful navigation names a path that exists in the type |
| TypeFromElement.InnerTypeRules | framework/src/org/checkerframework/framework/type/TypeFromElement.java:723-737 | more inner steps than enclosing types stays on the type; equally many drops them and stays |
| TypeFromElement.InnerTypeIntended | framework/src/org/checkerframework/framework/type/TypeFromElement.java:738-752 | j inner steps go out to the type j levels from the outermost and drop exactly those j steps |
| TypeFromElement.InnerTypeAsWritten | framework/src/org/checkerframework/framework/type/TypeFromElement.java:738-752 | as written, a nested generic type's argument is missed and a lone inner step reads past the list |
| TypeFromElement.CountInner | framework/src/org/checkerframework/framework/type/TypeFromElement.java:765-773 | counts the leading INNER_TYPE entries |
| TypeFromElement.CountEnclosing | framework/src/org/checkerframework/framework/type/TypeFromElement.java:775-782 | counts the enclosing types |
| TypeFromElement.AdjustedBound | framework/src/org/checkerframework/framework/type/TypeFromElement.java:672-679 | an adjusted index is always within the bounds |
| TypeFromElement.BoundIndexSpec | framework/src/org/checkerframework/framework/type/TypeFromElement.java:410-424 | the adjusted index picks the bound the class-file index names; only out-of-range indices and the implicit Object bound fail |
| TypeFromElement.AnnotateHere | framework/src/org/checkerframework/framework/type/TypeFromElement.java:644-652 | the qualifier is added; on a type variable it is the only one of its hierarchy; no other qualifier is lost |
| TypeFromElement.TypeVarReannotation | framework/src/org/checkerframework/framework/type/TypeFromElement.java:646-652 | on a type variable, a second qualifier of the same hierarchy replaces the first |
| TypeFromElement.Annotate | framework/src/org/checkerframework/framework/type/TypeFromElement.java:644-656 | annotating keeps the kind of the type it starts from; with mode AsWritten it is the source's annotate, with Intended the corrected INNER_TYPE navigation |
| TypeFromElement.AnnotateReachesTarget | framework/src/org/checkerframework/framework/type/TypeFromElement.java:686-692 | in either mode, annotating succeeds exactly when that mode's navigation does, and the type it reaches gains the qualifier; with AsWritten this is the source's target |
| TypeFromElement.AnnotateModesAgree | framework/src/org/checkerframework/framework/type/TypeFromElement.java:686-692 | annotate as written and as intended give the same result on every location without an INNER_TYPE entry |
| TypeFromElement.AnnotateInnerTypeAsWritten | framework/src/org/checkerframework/framework/type/TypeFromElement.java:738-752 | on the nested example, annotating at [INNER_TYPE] fails as written but annotates B as intended |
| TypeFromElement.UpdateAtTarget | framework/src/org/checkerframework/framework/type/TypeFromElement.java:690-691 | after the update the type at the path is the old one with the qualifiers added |
| TypeFromElement.PossibleBoundSpec | framework/src/org/checkerframework/framework/type/TypeFromElement.java:658-684 | a bound annotation on other kinds fails; otherwise the selected bound is annotated and the variable's own qualifiers stay |
| TypeFromElement.SuperTarget | framework/src/org/checkerframework/framework/type/TypeFromElement.java:468-479 | index -1 names the superclass; other indices name interfaces, shifted past the superclass; out of range names none |
| TypeFromElement.AnnotateSupers | framework/src/org/checkerframework/framework/type/TypeFromElement.java:465-499 | the loop computes what SupersAfter specifies, in the given navigation mode (AsWritten for the source) |
| TypeFromElement.SupersAfterOne | framework/src/org/checkerframework/framework/type/TypeFromElement.java:474-497 | type-parameter positions change nothing, other positions fail, and an extends annotation lands on the named supertype |

## Left out

- Lattice.Lubs: `QualifierHierarchy.leastUpperBounds` is not part of this model. For two sets that annotate different hierarchies it is taken to cover only the hierarchies both annotate. The comment at TreeAnnotator.java:219-222 suggests the library may fail on such sets instead; the model does not capture that failure.
- Lattice.Glbs: the same assumption for `greatestLowerBounds`.
- Lattice.AddAll: `addAnnotations` is not part of this model. It is taken to replace the qualifier of each hierarchy it names, because these types hold one qualifier per hierarchy. `TypeFromElement` keeps a set of qualifiers and takes `addAnnotation` as set insertion instead.
- TreeAnnotation.UpdateMapping: `updateMappingToMutableSet` is not part of this model. It is taken to add the qualifier to the key's set, and to fail only when that set already holds a different qualifier of the same hierarchy. Re-registering the same qualifier therefore succeeds.
- TreeAnnotation.TreeAnnotator.DefaultAction: TreeAnnotator.java:156 stores the interface's own `Set` object under the class, so later updates through either key would be shared. The model copies the value. The qualifiers found are the same; the sharing is not captured.
- The qualifier hierarchy implementations are parameters with their laws as a ghost predicate. `GraphQualifierHierarchy`, `QualifierHierarchy.leastUpperBounds` and `CFAbstractStore` are not part of this model. The base store join and superset test are a pointwise map join and a map comparison.
- Dataflow node values, the analysis object, `toString` and dot output are left out. These are `TransferInput.toString` and `NullnessStore.internalDotOutput`.
- `TreeAnnotator`'s constructor does not read `@ImplicitFor` by reflection. It starts from empty maps, and the add methods stand in for what reflection would add.
- Regular-expression matching for string patterns is a `matches` parameter. The one pattern modelled concretely is `@FullyQualifiedName`'s, as an automaton.
- The patterns in `TreeAnnotator` live in an `IdentityHashMap` keyed by freshly compiled patterns. Its iteration order is modelled as insertion order, and the properties proved do not depend on it.
- The types of sub-expressions come from `getAnnotatedType` and `getEffectiveAnnotations`. These are parameters of the visit methods.
- Receiver types, erasure and annotation copying in `checkOverride` are abstracted to a `typeSubtype` parameter. Overrides involving type variables are not modelled.
- Flow-expression parsing, `resolveContracts` and `checkFlowExprParameters` are left out. Contracts arrive already resolved to receivers.
- The showchecks output and `checkPreconditionsConsistency`, `checkPostconditionsConsistency` and `checkConditionalPostconditionsConsistency` are left out.
- Reading property files and resource bundles in `buildLookupKeys` is I/O. The lookup keys are a field set at construction.
- The `Void` type-name default of the property-key factory (PropertyKeyAnnotatedTypeFactory.java:53) is left out. The type annotator is not part of this model.
- `LockAnnotatedTypeFactory.annotateImplicit` calls the superclass first. That result is a `defaults` parameter. The `AnnotationBuilder` is a constructor of the qualifier.
- TypeFromElement: annotated types are values, and `Annotate` returns the updated type. In-place mutation and aliasing, for example a bound shared by an intersection, are not captured.
- TypeFromElement: javac's `Attribute` and `Symbol` lookups, and the dispatch in `annotateType`, `annotateExec` and `annotateTypeParam`, are left out. The other element kinds and debug printing are left out too.
- TypeFromElement: `addAnnotation` is taken as set insertion. An empty location returns the type itself, as the source does.
- TypeFromElement: the "not enough enclosing types" message cannot occur. The enclosing count is exact.
- TypeFromElement: `errorAbort` and `strict` are modelled as `None` or `Aborted`. A null dereference or an empty-list tail is modelled as `Crashed`.
- TypeFromElement.GetBounds: it requires a type variable or a wildcard. Every caller ensures this, so the abort for other kinds is not modelled.

## Findings

| source | as written | input that shows it | evidently intended | confidence | as-written member | corrected member |
|---|---|---|---|---|---|---|
| framework/src/org/checkerframework/common/basetype/BaseTypeVisitor.java:1920-1943 | `checkContractsSubset` accepts an overrider contract whose qualifier is a supertype of the required one | overridden postcondition `f` is NonNull, overrider postcondition `f` is Bottom: reported; overrider `f` is Nullable: accepted | an overrider may promise the same or a stronger qualifier (behavioural subtyping), so the comparison runs the other way | not executed | Contracts.OverrideDirectionAsWritten | Contracts.CleanOverrideIsBehavioural |
| framework/src/org/checkerframework/common/basetype/BaseTypeVisitor.java:865-867 | `checkPreconditions` returns at the first precondition whose qualifier the checker does not support, skipping the rest | preconditions [e0 has unsupported U, e has supported Q], empty store: nothing reported | skip the unsupported precondition and go on, so the violated `e` is Q is reported | not executed | Contracts.UnsupportedFirstHidesViolation | Contracts.PreconditionReportsSpec |
| framework/src/org/checkerframework/framework/type/TypeFromElement.java:738-752 | for INNER_TYPE, `getLocationTypeADT` drops one location entry for each step outward, that is (enclosing − inner) entries | Inner nested in C in B in A, B generic: `[INNER_TYPE, TYPE_ARGUMENT 0]` reaches B, not B's argument; `[INNER_TYPE]` takes the tail of an empty list | per section 4.7.20.2 of the Java Virtual Machine Specification, each INNER_TYPE entry steps one level inward from the outermost type, so exactly the inner entries are consumed | not executed | TypeFromElement.InnerTypeAsWritten | TypeFromElement.InnerTypeIntended |
