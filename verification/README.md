# Fragment value type of the Graql query planner

This project models the abstract base class of Graql's traversal
fragments. A fragment is one primitive step of a query plan over a `start`
variable and an optional `end` variable. The model covers:

- the three constructors and the immutable set of variable names they fix;
- the default (empty) dependency set;
- the write-anytime, read-after-write back-reference to the owning
  equivalent-fragment set;
- `toString`, `equals` and `hashCode`, with Java's 32-bit `int` wrap-around
  written out;
- the planner's fixed cost constants.

Modules:

- `Wrappers`: `Option` (Java `Optional` and nullable references) and `Result`.
- `Int32`: Java `int` values and wrapping `*` and `+`.
- `Costs`: the cardinality estimates.
- `Fragments`: the fragment datatype and its operations.
- `FragmentCollapse`: what `equals`/`hashCode` are for. It models a Java
  hash set receiving fragments one by one, and shows that alternatives over
  the same kind and endpoints collapse to the first one added. The members
  are listed in insertion order, as a `LinkedHashSet` iterates them. A plain
  `HashSet` defines no order, so the order is a choice of this model.

A fragment is the datatype `Fragment(kind, start, end, varNames, owner)`.
The concrete subclass (what `getClass()` compares) is the `Kind` tag.
`getStart`, `getEnd` and `getVariableNames` are the `start`, `end` and
`varNames` destructors.
`setEquivalentFragmentSet` returns the updated value instead of mutating a
field. Three things are not defined in this class, so they are function
parameters: the subclass's `getName()` (`name: Kind -> string`), the
variables' `toString()` (`show`), and the variables' `hashCode()` (`varHash`).

`setEquivalentFragmentSet` does not refuse a second assignment. It
overwrites the owner, including with `null` (`LastWriteWins`; `None` plays
`null`).

The constructors have no explicit argument check. A `null` variable still
fails fast: `Optional.of` and Guava's `ImmutableSet` throw a
`NullPointerException`. The model has no null variables, so it has no such
failure (see "Left out").

## Model

| member | source | states |
|---|---|---|
| Costs.CostConstantsArePositiveLongs | grakn-graql/src/main/java/ai/grakn/graql/internal/gremlin/fragment/AbstractFragment.java:34-45 | every cost estimate is a positive value that fits a Java `long` |
| Costs.RelationsPerInstanceIsDerived | grakn-graql/src/main/java/ai/grakn/graql/internal/gremlin/fragment/AbstractFragment.java:36-39 | relations per instance is relations per casting times castings per instance, which is 30 |
| Fragments.Unary | grakn-graql/src/main/java/ai/grakn/graql/internal/gremlin/fragment/AbstractFragment.java:52-56 | the one-variable constructor has no end, its variable set is exactly `{start}`, and it has no owner yet |
| Fragments.Binary | grakn-graql/src/main/java/ai/grakn/graql/internal/gremlin/fragment/AbstractFragment.java:58-62 | a variable is in the set iff it is the start, the end or one of the others; the end is present; start and end are always members |
| Fragments.Ternary | grakn-graql/src/main/java/ai/grakn/graql/internal/gremlin/fragment/AbstractFragment.java:64-68 | as for the binary constructor, with the extra mandatory variable also a member and nothing else added |
| Fragments.TernaryIsBinaryWithOtherFirst | grakn-graql/src/main/java/ai/grakn/graql/internal/gremlin/fragment/AbstractFragment.java:58-68 | the wider constructor builds the same fragment as the binary one given the extra variable first |
| Fragments.OptionalVarToArray | grakn-graql/src/main/java/ai/grakn/graql/internal/gremlin/fragment/AbstractFragment.java:70-72 | the array has at most one element, and holds `v` exactly when the optional is `Some(v)` |
| Fragments.OptionalVarToArrayRoundTrip | grakn-graql/src/main/java/ai/grakn/graql/internal/gremlin/fragment/AbstractFragment.java:70-72 | converting to an array and back gives the original optional, and conversely for arrays of length at most one |
| Fragments.BinaryWithOptionalOther | grakn-graql/src/main/java/ai/grakn/graql/internal/gremlin/fragment/AbstractFragment.java:58-72 | passing an optional extra variable through the array conversion adds exactly that variable, if present |
| Fragments.GetEquivalentFragmentSet | grakn-graql/src/main/java/ai/grakn/graql/internal/gremlin/fragment/AbstractFragment.java:74-78 | succeeds iff an owner is assigned and then returns it; otherwise fails with the null-pointer message, never a default |
| Fragments.SetEquivalentFragmentSet | grakn-graql/src/main/java/ai/grakn/graql/internal/gremlin/fragment/AbstractFragment.java:80-83 | the owner becomes the argument; kind, endpoints and variable set are unchanged |
| Fragments.GetBeforeSetFails | grakn-graql/src/main/java/ai/grakn/graql/internal/gremlin/fragment/AbstractFragment.java:50-78 | a fragment fresh from any constructor fails when its owner is read |
| Fragments.GetAfterSet | grakn-graql/src/main/java/ai/grakn/graql/internal/gremlin/fragment/AbstractFragment.java:74-83 | reading after assigning a set returns that set; after assigning `null` the read fails again |
| Fragments.LastWriteWins | grakn-graql/src/main/java/ai/grakn/graql/internal/gremlin/fragment/AbstractFragment.java:80-83 | a second assignment is accepted and replaces the first |
| Fragments.Dependencies | grakn-graql/src/main/java/ai/grakn/graql/internal/gremlin/fragment/AbstractFragment.java:95-98 | the base class depends on no variable |
| Fragments.VariableNamesFixedAtConstruction | grakn-graql/src/main/java/ai/grakn/graql/internal/gremlin/fragment/AbstractFragment.java:100-103 | the set `getVariableNames` reports is exactly `{start}`, `{start, end} + others` or `{start, end, other} + others` as the constructor fixed it, whatever owner was assigned since: no hidden variables |
| Fragments.VariableNamesStable | grakn-graql/src/main/java/ai/grakn/graql/internal/gremlin/fragment/AbstractFragment.java:95-103 | assigning an owner never changes the variable set or well-formedness; the dependencies are among the variables |
| Fragments.EndText | grakn-graql/src/main/java/ai/grakn/graql/internal/gremlin/fragment/AbstractFragment.java:107 | an absent end renders as the empty string, a present end as that variable's text |
| Fragments.Render | grakn-graql/src/main/java/ai/grakn/graql/internal/gremlin/fragment/AbstractFragment.java:105-108 | the string is the start's text, then the kind's name, then the end's text or nothing, at known positions |
| Fragments.RenderConsistentWithEquals | grakn-graql/src/main/java/ai/grakn/graql/internal/gremlin/fragment/AbstractFragment.java:105-121 | in this model, equal fragments render to the same string: the rendering reads only the start, the end and the kind's name |
| Fragments.Equals | grakn-graql/src/main/java/ai/grakn/graql/internal/gremlin/fragment/AbstractFragment.java:110-121 | identical fragments are equal, and two fragments are equal exactly when their kind, start and end agree |
| Fragments.EqualsIsEquivalence | grakn-graql/src/main/java/ai/grakn/graql/internal/gremlin/fragment/AbstractFragment.java:110-121 | equality is reflexive, symmetric and transitive |
| Fragments.EqualsIgnoresAuxiliaryData | grakn-graql/src/main/java/ai/grakn/graql/internal/gremlin/fragment/AbstractFragment.java:110-121 | replacing the variable set or the owner keeps a fragment equal to itself, and any two fragments built by the binary or wider constructors over the same kind, start and end are equal whatever their further variables |
| Fragments.AlternativesCollapse | grakn-graql/src/main/java/ai/grakn/graql/internal/gremlin/fragment/AbstractFragment.java:110-121 | two fragments with different auxiliary variables are different values but equal fragments |
| Fragments.OptionalHash | grakn-graql/src/main/java/ai/grakn/graql/internal/gremlin/fragment/AbstractFragment.java:126 | the hash of an absent end is 0 and of a present end is that variable's hash |
| Fragments.HashCode | grakn-graql/src/main/java/ai/grakn/graql/internal/gremlin/fragment/AbstractFragment.java:123-128 | the step-by-step wrapping evaluation equals `31*h(start) + h(end)` (0 for no end) reduced once to a Java `int` |
| Fragments.HashConsistentWithEquals | grakn-graql/src/main/java/ai/grakn/graql/internal/gremlin/fragment/AbstractFragment.java:110-128 | equal fragments have equal hash codes, for every variable hash function |
| Int32.Wrap | grakn-graql/src/main/java/ai/grakn/graql/internal/gremlin/fragment/AbstractFragment.java:124-127 | the result is the Java `int` congruent to its argument modulo 2^32, and in-range values are unchanged |
| Int32.Mul | grakn-graql/src/main/java/ai/grakn/graql/internal/gremlin/fragment/AbstractFragment.java:126 | Java `int` multiplication is the product modulo 2^32 |
| Int32.Add | grakn-graql/src/main/java/ai/grakn/graql/internal/gremlin/fragment/AbstractFragment.java:126 | Java `int` addition is the sum modulo 2^32 |
| Int32.WrapAbsorbsInnerWrap | grakn-graql/src/main/java/ai/grakn/graql/internal/gremlin/fragment/AbstractFragment.java:126 | wrapping the product before the addition gives the same `int` as wrapping once at the end |
| FragmentCollapse.HashLookupIsEqualsLookup | grakn-graql/src/main/java/ai/grakn/graql/internal/gremlin/fragment/AbstractFragment.java:110-128 | a hash-then-equals lookup finds a member iff some member is equal: the hash never hides an equal fragment |
| FragmentCollapse.Contains | grakn-graql/src/main/java/ai/grakn/graql/internal/gremlin/fragment/AbstractFragment.java:110-128 | hash-set membership holds exactly when some member is an equal fragment |
| FragmentCollapse.Collapse | grakn-graql/src/main/java/ai/grakn/graql/internal/gremlin/fragment/AbstractFragment.java:110-128 | adding fragments to a hash set keeps pairwise-unequal members in input order; every input fragment is represented by an equal member added no later than itself |

## Left out

- The `NullPointerException` that `Optional.of` and `ImmutableSet` throw when a constructor gets a `null` variable: the model has no null variables. A constructed fragment therefore never has a null start or end, so the `!= null` branches of `equals` and `hashCode` are dead code and not modelled.
- `equals(null)`: the model has no null fragments. `equals` applied to an object of another class is the `kind` comparison.
- The iteration order of Guava's `ImmutableSet`: the variable set is a mathematical set.
- Fragments.RenderConsistentWithEquals: `getName()` is a virtual method, and a subclass could build its name from its own fields. The model assumes it depends only on the concrete class (`name: Kind -> string`). `toString`, `equals` and `hashCode` are not `final`, so this lemma, `HashConsistentWithEquals` and the `FragmentCollapse` lemmas hold only for subclasses that do not override them.
- Per-subclass behaviour (`getName`, overridden `getDependencies`, cost formulas): the subclasses are not part of this model. The name enters as a parameter.
- `Var.toString()` and `Var.hashCode()` are not part of this model; they enter as parameters.
- The equivalent-fragment set itself, the cost estimator and the planner are not part of this model. The owning set is an opaque identity `SetRef`.
- The query-error integration tests depend on the query builder, schema lookup and error-message templates, none of which are part of this model.
