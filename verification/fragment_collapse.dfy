/** What `equals` and `hashCode` are for: fragments put into a hash set
    collapse when they share kind, start and end. A Java hash set looks an
    element up by hash code first and by `equals` second, and `add` keeps
    the element already present. The members are kept in insertion order,
    as a `LinkedHashSet` iterates them; a plain `HashSet` defines no
    iteration order, so the order is a choice of this model. */
module FragmentCollapse {
  import opened Fragments
  import Int32

  /** The hash-set lookup: some member has the same hash code and is equal. */
  predicate HashLookup(members: seq<Fragment>, f: Fragment, varHash: Var -> Int32.Int32) {
    exists g :: g in members && HashCode(g, varHash) == HashCode(f, varHash) && Equals(g, f)
  }

  /** Because hashing agrees with equality, the hash comparison never hides
      an equal member: the lookup is exactly "some member is equal". */
  lemma HashLookupIsEqualsLookup(members: seq<Fragment>, f: Fragment, varHash: Var -> Int32.Int32)
    ensures HashLookup(members, f, varHash) <==> exists g :: g in members && Equals(g, f)
  {
    if g :| g in members && Equals(g, f) {
      HashConsistentWithEquals(g, f, varHash);
    }
  }

  /** `HashSet.contains`: the hash-set lookup, which finds exactly the
      members equal to `f`. */
  function Contains(members: seq<Fragment>, f: Fragment, varHash: Var -> Int32.Int32): (b: bool)
    ensures b <==> exists j :: 0 <= j < |members| && Equals(members[j], f)
  {
    HashLookupIsEqualsLookup(members, f, varHash);
    assert (exists g :: g in members && Equals(g, f))
           <==> exists j :: 0 <= j < |members| && Equals(members[j], f);
    HashLookup(members, f, varHash)
  }

  /** Some member, added from position `k` of the input or earlier, is
      equal to `f`. */
  predicate RepresentedBy(r: seq<Fragment>, kept: seq<nat>, f: Fragment, k: nat)
    requires |r| == |kept|
  {
    exists j :: 0 <= j < |r| && kept[j] <= k && Equals(r[j], f)
  }

  /** No two members are equal fragments. */
  predicate Distinct(r: seq<Fragment>) {
    forall j, k :: 0 <= j < k < |r| ==> !Equals(r[j], r[k])
  }

  /** The state of the hash set after the first `i` inputs were added:
      `kept` lists, in increasing order, the input positions the members
      came from, and every input so far is represented. */
  predicate Added(fs: seq<Fragment>, i: nat, r: seq<Fragment>, kept: seq<nat>) {
    && i <= |fs|
    && |r| == |kept| <= i
    && (forall j :: 0 <= j < |r| ==> kept[j] < i && r[j] == fs[kept[j]])
    && (forall j, k :: 0 <= j < k < |r| ==> kept[j] < kept[k])
    && Distinct(r)
    && (forall k :: 0 <= k < i ==> RepresentedBy(r, kept, fs[k], k))
  }

  /** Appending a fragment that no member equals keeps the members
      pairwise unequal. */
  lemma {:induction false} AppendKeepsDistinct(r: seq<Fragment>, f: Fragment)
    requires Distinct(r)
    requires forall j :: 0 <= j < |r| ==> !Equals(r[j], f)
    ensures Distinct(r + [f])
  {
    var r' := r + [f];
    forall j, k | 0 <= j < k < |r'|
      ensures !Equals(r'[j], r'[k])
    {
      if k < |r| {
        assert r'[j] == r[j] && r'[k] == r[k];
      } else {
        assert r'[j] == r[j] && r'[k] == f;
      }
    }
  }

  /** Appending a member keeps every earlier input represented, and
      represents the appended input itself. */
  lemma {:induction false} AppendKeepsRepresented(fs: seq<Fragment>, i: nat, r: seq<Fragment>, kept: seq<nat>)
    requires i < |fs| && |r| == |kept|
    requires forall k :: 0 <= k < i ==> RepresentedBy(r, kept, fs[k], k)
    ensures forall k :: 0 <= k < i + 1 ==> RepresentedBy(r + [fs[i]], kept + [i], fs[k], k)
  {
    var r', kept' := r + [fs[i]], kept + [i];
    assert RepresentedBy(r', kept', fs[i], i) by {
      assert r'[|r|] == fs[i] && kept'[|r|] == i;
    }
    forall k | 0 <= k < i
      ensures RepresentedBy(r', kept', fs[k], k)
    {
      assert RepresentedBy(r, kept, fs[k], k);
      var j :| 0 <= j < |r| && kept[j] <= k && Equals(r[j], fs[k]);
      assert r'[j] == r[j] && kept'[j] == kept[j];
    }
  }

  /** Appending input `i` with position `i` keeps the positions increasing
      and pointing at the members. */
  lemma {:induction false} AppendKeepsPositions(fs: seq<Fragment>, i: nat, r: seq<Fragment>, kept: seq<nat>)
    requires i < |fs| && |r| == |kept|
    requires forall j :: 0 <= j < |r| ==> kept[j] < i && r[j] == fs[kept[j]]
    requires forall j, k :: 0 <= j < k < |r| ==> kept[j] < kept[k]
    ensures forall j :: 0 <= j < |r| + 1 ==> (kept + [i])[j] < i + 1 && (r + [fs[i]])[j] == fs[(kept + [i])[j]]
    ensures forall j, k :: 0 <= j < k < |r| + 1 ==> (kept + [i])[j] < (kept + [i])[k]
  {
  }

  /** Adding an input that no member equals appends it. */
  lemma {:induction false} AddNew(fs: seq<Fragment>, i: nat, r: seq<Fragment>, kept: seq<nat>)
    requires i < |fs| && Added(fs, i, r, kept)
    requires forall j :: 0 <= j < |r| ==> !Equals(r[j], fs[i])
    ensures Added(fs, i + 1, r + [fs[i]], kept + [i])
  {
    AppendKeepsDistinct(r, fs[i]);
    AppendKeepsRepresented(fs, i, r, kept);
    AppendKeepsPositions(fs, i, r, kept);
  }

  /** Adding an input that some member equals leaves the set unchanged. */
  lemma {:induction false} AddPresent(fs: seq<Fragment>, i: nat, r: seq<Fragment>, kept: seq<nat>)
    requires i < |fs| && Added(fs, i, r, kept)
    requires exists j :: 0 <= j < |r| && Equals(r[j], fs[i])
    ensures Added(fs, i + 1, r, kept)
  {
    var j :| 0 <= j < |r| && Equals(r[j], fs[i]);
    assert kept[j] <= i;
    assert RepresentedBy(r, kept, fs[i], i);
    assert forall k :: 0 <= k < i + 1 ==> RepresentedBy(r, kept, fs[k], k);
  }

  /** Adds the fragments one by one to an initially empty hash set. The
      members are listed in insertion order; `kept` gives the input
      position each member came from. */
  method Collapse(fs: seq<Fragment>, varHash: Var -> Int32.Int32) returns (r: seq<Fragment>, kept: seq<nat>)
    ensures |r| == |kept| <= |fs|
    ensures forall j :: 0 <= j < |r| ==> kept[j] < |fs| && r[j] == fs[kept[j]]
    ensures forall j, k :: 0 <= j < k < |r| ==> kept[j] < kept[k]
    ensures forall j, k :: 0 <= j < k < |r| ==> !Equals(r[j], r[k])
    ensures forall k :: 0 <= k < |fs| ==> RepresentedBy(r, kept, fs[k], k)
  {
    r, kept := [], [];
    var i := 0;
    while i < |fs|
      invariant i <= |fs|
      invariant Added(fs, i, r, kept)
    {
      if !Contains(r, fs[i], varHash) {
        AddNew(fs, i, r, kept);
        r, kept := r + [fs[i]], kept + [i];
      } else {
        AddPresent(fs, i, r, kept);
      }
      i := i + 1;
    }
  }
}
