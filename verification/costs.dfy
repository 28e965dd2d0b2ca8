/** The fixed cardinality estimates the planner's cost model uses. They are
    heuristic priors (Java `long` constants), not measured statistics. */
module Costs {

  const NumInstancesPerType: int := 100
  const NumInstancesPerScope: int := 100
  const NumRelationsPerCasting: int := 10
  const NumSubtypesPerType: int := 3
  const NumCastingsPerInstance: int := 3
  /** Derived: every casting of an instance takes part in that many relations. */
  const NumRelationsPerInstance: int := NumRelationsPerCasting * NumCastingsPerInstance
  const NumScopesPerInstance: int := 3
  const NumTypesPerRole: int := 3
  const NumRolesPerType: int := 3
  const NumRolePlayersPerRelation: int := 2
  const NumRolePlayersPerRole: int := 1
  const NumResourcesPerValue: int := 2

  /** The largest Java `long`. */
  const LongMax: int := 0x7fff_ffff_ffff_ffff

  /** Every estimate is a positive `long`. */
  predicate PositiveLong(x: int) {
    0 < x <= LongMax
  }

  lemma CostConstantsArePositiveLongs()
    ensures PositiveLong(NumInstancesPerType) && PositiveLong(NumInstancesPerScope)
    ensures PositiveLong(NumRelationsPerCasting) && PositiveLong(NumSubtypesPerType)
    ensures PositiveLong(NumCastingsPerInstance) && PositiveLong(NumRelationsPerInstance)
    ensures PositiveLong(NumScopesPerInstance) && PositiveLong(NumTypesPerRole)
    ensures PositiveLong(NumRolesPerType) && PositiveLong(NumRolePlayersPerRelation)
    ensures PositiveLong(NumRolePlayersPerRole) && PositiveLong(NumResourcesPerValue)
  {
  }

  /** The derived estimate is the product of the two it is built from. */
  lemma RelationsPerInstanceIsDerived()
    ensures NumRelationsPerInstance == NumRelationsPerCasting * NumCastingsPerInstance
    ensures NumRelationsPerInstance == 30
  {
  }
}
