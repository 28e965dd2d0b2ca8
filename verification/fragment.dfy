/** A fragment: one primitive traversal step of a query plan.

    The abstract base class is modelled as an immutable datatype. The
    concrete subclass is a `Kind` tag; the subclass-specific display name,
    the variables' string form and the variables' hash codes are not part
    of this model and enter as function parameters. The mutable
    back-reference to the owning equivalent-fragment set is an optional
    field, and its setter returns the updated fragment. */
module Fragments {
  import opened Wrappers
  import Int32

  /** A query variable, compared by name. */
  datatype Var = Var(name: string)

  /** The concrete fragment class (what `getClass()` distinguishes). */
  datatype Kind = Kind(className: string)

  /** The identity of an equivalent-fragment set; the set itself is not
      part of this model. */
  datatype SetRef = SetRef(id: nat)

  /** Why a checked call fails. */
  datatype ContractViolation = NullPointer(message: string)

  const GetBeforeSetMessage: string :=
    "Should not call getEquivalentFragmentSet before setEquivalentFragmentSet"

  /** `owner` is `None` while the Java field is still `null`. */
  datatype Fragment = Fragment(
    kind: Kind,
    start: Var,
    end: Option<Var>,
    varNames: set<Var>,
    owner: Option<SetRef>)

  /** The variables an optional end contributes. */
  function OptionVars(v: Option<Var>): set<Var> {
    match v
    case None => {}
    case Some(x) => {x}
  }

  /** Every endpoint of the fragment is one of its variables. */
  predicate Valid(f: Fragment) {
    f.start in f.varNames && OptionVars(f.end) <= f.varNames
  }

  // ---------------------------------------------------------------- constructors

  /** The one-variable constructor. */
  function Unary(kind: Kind, start: Var): (f: Fragment)
    ensures f.kind == kind && f.start == start && f.end == None
    ensures forall v :: v in f.varNames <==> v == start
    ensures f.owner == None
    ensures Valid(f)
  {
    Fragment(kind, start, None, {start}, None)
  }

  /** The constructor taking a start, an end and any number of further
      variables. */
  function Binary(kind: Kind, start: Var, end: Var, others: seq<Var>): (f: Fragment)
    ensures f.kind == kind && f.start == start && f.end == Some(end)
    ensures forall v :: v in f.varNames <==> v == start || v == end || v in others
    ensures f.owner == None
    ensures Valid(f)
  {
    Fragment(kind, start, Some(end), {start, end} + (set v | v in others), None)
  }

  /** The constructor taking a start, an end, one further variable and any
      number more. */
  function Ternary(kind: Kind, start: Var, end: Var, other: Var, others: seq<Var>): (f: Fragment)
    ensures f.kind == kind && f.start == start && f.end == Some(end)
    ensures forall v :: v in f.varNames <==> v == start || v == end || v == other || v in others
    ensures f.owner == None
    ensures Valid(f)
  {
    Fragment(kind, start, Some(end), {start, end, other} + (set v | v in others), None)
  }

  /** The wider constructor builds the same fragment as the binary one given
      the extra variable in front of the rest. */
  lemma TernaryIsBinaryWithOtherFirst(kind: Kind, start: Var, end: Var, other: Var, others: seq<Var>)
    ensures Ternary(kind, start, end, other, others) == Binary(kind, start, end, [other] + others)
  {
  }

  // ---------------------------------------------------------------- optionalVarToArray

  /** The array of the optional variable's values: empty or a singleton. */
  function OptionalVarToArray(v: Option<Var>): (r: seq<Var>)
    ensures |r| <= 1
    ensures forall x :: x in r <==> v == Some(x)
  {
    match v
    case None => []
    case Some(x) => [x]
  }

  /** The inverse of `OptionalVarToArray` on arrays of length at most one. */
  function ArrayToOptionalVar(r: seq<Var>): (v: Option<Var>)
    requires |r| <= 1
  {
    if r == [] then None else Some(r[0])
  }

  lemma OptionalVarToArrayRoundTrip(v: Option<Var>, r: seq<Var>)
    ensures ArrayToOptionalVar(OptionalVarToArray(v)) == v
    ensures |r| <= 1 ==> OptionalVarToArray(ArrayToOptionalVar(r)) == r
  {
  }

  /** Passing an optional variable through `OptionalVarToArray` to the
      binary constructor adds exactly that variable, if present. */
  lemma BinaryWithOptionalOther(kind: Kind, start: Var, end: Var, other: Option<Var>)
    ensures Binary(kind, start, end, OptionalVarToArray(other)).varNames
            == {start, end} + OptionVars(other)
  {
  }

  // ---------------------------------------------------------------- owning set

  /** `getEquivalentFragmentSet`: the owning set, or a null-pointer failure
      while none has been assigned. */
  function GetEquivalentFragmentSet(f: Fragment): (r: Result<SetRef, ContractViolation>)
    ensures r.Success? <==> f.owner.Some?
    ensures r.Success? ==> f.owner == Some(r.value)
    ensures r.Failure? ==> r.error == NullPointer(GetBeforeSetMessage)
  {
    match f.owner
    case None => Failure(NullPointer(GetBeforeSetMessage))
    case Some(s) => Success(s)
  }

  /** `setEquivalentFragmentSet`: overwrites the owner unconditionally;
      `None` stands for a `null` argument. */
  function SetEquivalentFragmentSet(f: Fragment, s: Option<SetRef>): (g: Fragment)
    ensures g.owner == s
    ensures g.kind == f.kind && g.start == f.start && g.end == f.end
    ensures g.varNames == f.varNames
  {
    f.(owner := s)
  }

  /** A freshly constructed fragment has no owner yet, so reading it fails. */
  lemma GetBeforeSetFails(kind: Kind, start: Var, end: Var, other: Var, others: seq<Var>)
    ensures GetEquivalentFragmentSet(Unary(kind, start)).Failure?
    ensures GetEquivalentFragmentSet(Binary(kind, start, end, others)).Failure?
    ensures GetEquivalentFragmentSet(Ternary(kind, start, end, other, others)).Failure?
  {
  }

  /** Reading after assigning a set returns that set; after assigning
      `null` it fails again. */
  lemma GetAfterSet(f: Fragment, s: Option<SetRef>)
    ensures s.Some? ==> GetEquivalentFragmentSet(SetEquivalentFragmentSet(f, s)) == Success(s.value)
    ensures s.None? ==> GetEquivalentFragmentSet(SetEquivalentFragmentSet(f, s)).Failure?
  {
  }

  /** A second assignment is not refused: it replaces the first. */
  lemma LastWriteWins(f: Fragment, first: SetRef, second: SetRef)
    ensures GetEquivalentFragmentSet(
              SetEquivalentFragmentSet(SetEquivalentFragmentSet(f, Some(first)), Some(second)))
            == Success(second)
  {
  }

  // ---------------------------------------------------------------- accessors

  /** `getDependencies` of the base class: no variable needs binding first. */
  function Dependencies(f: Fragment): (r: set<Var>)
    ensures forall v :: v !in r
  {
    {}
  }

  /** `getVariableNames` is the `varNames` destructor: the set a fragment
      reports is exactly the one its constructor fixed, whatever owner has
      been assigned since. */
  lemma VariableNamesFixedAtConstruction(
    kind: Kind, start: Var, end: Var, other: Var, others: seq<Var>, s: Option<SetRef>)
    ensures SetEquivalentFragmentSet(Unary(kind, start), s).varNames == {start}
    ensures SetEquivalentFragmentSet(Binary(kind, start, end, others), s).varNames
            == {start, end} + (set v | v in others)
    ensures SetEquivalentFragmentSet(Ternary(kind, start, end, other, others), s).varNames
            == {start, end, other} + (set v | v in others)
  {
  }

  /** Assigning an owner never changes the variables of a fragment, and
      the default dependencies are among them. */
  lemma VariableNamesStable(f: Fragment, s: Option<SetRef>)
    ensures SetEquivalentFragmentSet(f, s).varNames == f.varNames
    ensures Dependencies(f) <= f.varNames
    ensures Valid(f) ==> Valid(SetEquivalentFragmentSet(f, s))
  {
  }

  // ---------------------------------------------------------------- toString

  /** `end.map(Object::toString).orElse("")`. */
  function EndText(end: Option<Var>, show: Var -> string): (t: string)
    ensures end.None? ==> t == ""
    ensures forall e :: end == Some(e) ==> t == show(e)
  {
    match end
    case None => ""
    case Some(e) => show(e)
  }

  /** `toString`: the start, the kind's name, then the end if any. */
  function Render(f: Fragment, name: Kind -> string, show: Var -> string): (r: string)
    ensures |r| == |show(f.start)| + |name(f.kind)| + |EndText(f.end, show)|
    ensures r[..|show(f.start)|] == show(f.start)
    ensures r[|show(f.start)|..|show(f.start)| + |name(f.kind)|] == name(f.kind)
    ensures r[|show(f.start)| + |name(f.kind)|..] == EndText(f.end, show)
    ensures f.end.None? ==> r == show(f.start) + name(f.kind)
  {
    show(f.start) + name(f.kind) + EndText(f.end, show)
  }

  // ---------------------------------------------------------------- equals / hashCode

  /** The part of a fragment that `equals` and `hashCode` look at. */
  function Key(f: Fragment): (Kind, Var, Option<Var>) {
    (f.kind, f.start, f.end)
  }

  /** `equals`: same concrete class, same start, same end. */
  function Equals(a: Fragment, b: Fragment): (r: bool)
    ensures a == b ==> r
    ensures r <==> Key(a) == Key(b)
  {
    a.kind == b.kind && a.start == b.start && a.end == b.end
  }

  lemma EqualsIsEquivalence(a: Fragment, b: Fragment, c: Fragment)
    ensures Equals(a, a)
    ensures Equals(a, b) <==> Equals(b, a)
    ensures Equals(a, b) && Equals(b, c) ==> Equals(a, c)
  {
  }

  /** The variable set and the owning set never matter to equality: any
      two fragments built over the same kind, start and end are equal,
      whatever further variables they were given. */
  lemma EqualsIgnoresAuxiliaryData(
    a: Fragment, vars: set<Var>, owner: Option<SetRef>,
    kind: Kind, start: Var, end: Var, x: Var, y: Var, xs: seq<Var>, ys: seq<Var>)
    ensures Equals(a, a.(varNames := vars, owner := owner))
    ensures Equals(Binary(kind, start, end, xs), Binary(kind, start, end, ys))
    ensures Equals(Binary(kind, start, end, xs), Ternary(kind, start, end, y, ys))
    ensures Equals(Ternary(kind, start, end, x, xs), Ternary(kind, start, end, y, ys))
  {
  }

  /** Two alternatives over the same endpoints with different auxiliary
      variables are different values yet equal fragments. */
  lemma AlternativesCollapse(kind: Kind, start: Var, end: Var, x: Var, y: Var)
    requires x != y && x != start && x != end
    ensures Binary(kind, start, end, [x]) != Binary(kind, start, end, [y])
    ensures Equals(Binary(kind, start, end, [x]), Binary(kind, start, end, [y]))
  {
    assert x !in Binary(kind, start, end, [y]).varNames;
  }

  /** Java's `Optional.hashCode`: the value's hash, or 0 when empty. */
  function OptionalHash(v: Option<Var>, varHash: Var -> Int32.Int32): (h: Int32.Int32)
    ensures v.None? ==> h == 0
    ensures forall x :: v == Some(x) ==> h == varHash(x)
  {
    match v
    case None => 0
    case Some(x) => varHash(x)
  }

  /** `hashCode`, evaluated step by step with Java's wrapping `int`
      arithmetic. */
  function HashCode(f: Fragment, varHash: Var -> Int32.Int32): (h: Int32.Int32)
    ensures h == Int32.Wrap(31 * varHash(f.start) + OptionalHash(f.end, varHash))
  {
    var result := varHash(f.start);
    Int32.WrapAbsorbsInnerWrap(31 * result, OptionalHash(f.end, varHash));
    Int32.Add(Int32.Mul(31, result), OptionalHash(f.end, varHash))
  }

  /** Equal fragments have equal hash codes, whatever the variables'
      hash function. */
  lemma HashConsistentWithEquals(a: Fragment, b: Fragment, varHash: Var -> Int32.Int32)
    requires Equals(a, b)
    ensures HashCode(a, varHash) == HashCode(b, varHash)
  {
  }

  /** Equal fragments render to the same string. */
  lemma RenderConsistentWithEquals(a: Fragment, b: Fragment, name: Kind -> string, show: Var -> string)
    requires Equals(a, b)
    ensures Render(a, name, show) == Render(b, name, show)
  {
  }
}
