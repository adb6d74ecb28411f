/**
 * The vessel entries with logic of their own: the mass entries, which convert the host's
 * tonnes to kilograms, and the non-stageable resources entry, which lists the resources
 * that do not drain with staging.
 */
module VesselEntries {
  import opened Wrappers
  import StageInfoEntries

  /** `Mass.RefreshData`: the vessel's total mass, from tonnes to kilograms. */
  function MassValue(totalMassTonnes: real): (kg: real)
    ensures kg / 1000.0 == totalMassTonnes
    ensures kg >= 0.0 <==> totalMassTonnes >= 0.0
  {
    totalMassTonnes * 1000.0
  }

  /**
   * `DryMass.RefreshData`: the dry mass of the first stage of the report, in kilograms;
   * null without a report or with an empty one, and a throw when the stage list is null.
   */
  function DryMassValue(deltaV: Option<StageInfoEntries.VesselDeltaV>): (r: Result<Option<real>, Failure>)
    ensures r.Err? <==> StageInfoEntries.FirstStage(deltaV).Err?
    ensures r.Ok? ==> (r.value.Some? <==> StageInfoEntries.FirstStage(deltaV).value.Some?)
    ensures r.Ok? && r.value.Some? ==>
      r.value.value / 1000.0 == StageInfoEntries.FirstStage(deltaV).value.value.dryMass
  {
    match StageInfoEntries.FirstStage(deltaV)
    case Err(e) => Err(e)
    case Ok(None) => Ok(None)
    case Ok(Some(s)) => Ok(Some(s.dryMass * 1000.0))
  }

  /** `FuelMass.RefreshData`: as `DryMassValue`, for the first stage's fuel mass. */
  function FuelMassValue(deltaV: Option<StageInfoEntries.VesselDeltaV>): (r: Result<Option<real>, Failure>)
    ensures r.Err? <==> StageInfoEntries.FirstStage(deltaV).Err?
    ensures r.Ok? ==> (r.value.Some? <==> StageInfoEntries.FirstStage(deltaV).value.Some?)
    ensures r.Ok? && r.value.Some? ==>
      r.value.value / 1000.0 == StageInfoEntries.FirstStage(deltaV).value.value.fuelMass
  {
    match StageInfoEntries.FirstStage(deltaV)
    case Err(e) => Err(e)
    case Ok(None) => Ok(None)
    case Ok(Some(s)) => Ok(Some(s.fuelMass * 1000.0))
  }

  // ---------------------------------------------------------------------------
  // Non-stageable resources
  // ---------------------------------------------------------------------------

  /** A resource held by the vessel (`ContainedResourceData`). */
  datatype ContainedResource = ContainedResource(resourceId: int, storedUnits: real, capacityUnits: real)

  /** The host's definition of a resource: internal name, display name, and whether it is non-stageable. */
  datatype ResourceDefinition = ResourceDefinition(name: string, displayName: string, nonStageable: bool)

  /** The host's resource database lookup (`ResourceDefinitionDatabase.GetDefinitionData`). */
  type DefinitionLookup = int -> ResourceDefinition

  /** The unit a resource is shown in: the host's "units" symbol, litres, or the host's tonne symbol. */
  datatype ResourceUnit = SymbolUnits | Litres | SymbolTonne

  /** One line of the entry (`NonStageableResource`). */
  datatype NonStageableResource =
    NonStageableResource(name: string, storedUnits: real, capacityUnits: real, unit: ResourceUnit)

  /** The unit switch on the resource's internal name. */
  function UnitFor(name: string): (u: ResourceUnit)
    ensures u == SymbolUnits <==> name == "ElectricCharge"
    ensures u == Litres <==> name == "Water"
    ensures u == SymbolTonne <==> name != "ElectricCharge" && name != "Water"
  {
    if name == "ElectricCharge" then SymbolUnits
    else if name == "Water" then Litres
    else SymbolTonne
  }

  /** The line shown for a resource. */
  function LineFor(r: ContainedResource, definitionOf: DefinitionLookup): NonStageableResource
  {
    var d := definitionOf(r.resourceId);
    NonStageableResource(d.displayName, r.storedUnits, r.capacityUnits, UnitFor(d.name))
  }

  predicate IsNonStageable(r: ContainedResource, definitionOf: DefinitionLookup)
  {
    definitionOf(r.resourceId).nonStageable
  }

  /** The lines for the non-stageable resources, in input order. */
  function NonStageableLines(rs: seq<ContainedResource>, definitionOf: DefinitionLookup): seq<NonStageableResource>
  {
    if rs == [] then []
    else NonStageableLines(rs[..|rs| - 1], definitionOf)
         + (if IsNonStageable(rs[|rs| - 1], definitionOf) then [LineFor(rs[|rs| - 1], definitionOf)] else [])
  }

  /** The lines of a concatenation are the lines of its parts, in order. */
  lemma {:induction false} NonStageableLinesAppend(a: seq<ContainedResource>, b: seq<ContainedResource>,
                                                   definitionOf: DefinitionLookup)
    ensures NonStageableLines(a + b, definitionOf) == NonStageableLines(a, definitionOf) + NonStageableLines(b, definitionOf)
    decreases |b|
  {
    if b == [] {
      assert a + b == a;
    } else {
      var b' := b[..|b| - 1];
      assert (a + b)[..|a + b| - 1] == a + b';
      assert (a + b)[|a + b| - 1] == b[|b| - 1];
      NonStageableLinesAppend(a, b', definitionOf);
    }
  }

  /**
   * Exactly the non-stageable resources get a line: every line is the line of a
   * non-stageable input, every non-stageable input has its line, and there are no more
   * lines than inputs.
   */
  lemma {:induction false} NonStageableLinesSpec(rs: seq<ContainedResource>, definitionOf: DefinitionLookup)
    ensures |NonStageableLines(rs, definitionOf)| <= |rs|
    ensures forall l :: l in NonStageableLines(rs, definitionOf) ==>
      exists i :: 0 <= i < |rs| && IsNonStageable(rs[i], definitionOf) && l == LineFor(rs[i], definitionOf)
    ensures forall i :: 0 <= i < |rs| && IsNonStageable(rs[i], definitionOf) ==>
      LineFor(rs[i], definitionOf) in NonStageableLines(rs, definitionOf)
  {
    if rs != [] {
      var init := rs[..|rs| - 1];
      NonStageableLinesSpec(init, definitionOf);
      forall l | l in NonStageableLines(rs, definitionOf)
        ensures exists i :: 0 <= i < |rs| && IsNonStageable(rs[i], definitionOf) && l == LineFor(rs[i], definitionOf)
      {
        if l in NonStageableLines(init, definitionOf) {
          var i :| 0 <= i < |init| && IsNonStageable(init[i], definitionOf) && l == LineFor(init[i], definitionOf);
          assert rs[i] == init[i];
        } else {
          assert IsNonStageable(rs[|rs| - 1], definitionOf) && l == LineFor(rs[|rs| - 1], definitionOf);
        }
      }
      forall i | 0 <= i < |rs| && IsNonStageable(rs[i], definitionOf)
        ensures LineFor(rs[i], definitionOf) in NonStageableLines(rs, definitionOf)
      {
        if i < |init| {
          assert rs[i] == init[i];
        }
      }
    }
  }

  /**
   * `NonStageableResourcesEntry.ParseNonstageableResources`: the lines for the non-stageable
   * resources. A null list gets past the empty-list guard and throws in the loop.
   */
  method ParseNonstageableResources(resources: Option<seq<ContainedResource>>, definitionOf: DefinitionLookup)
    returns (parsed: Result<seq<NonStageableResource>, Failure>)
    ensures resources.None? ==> parsed == Err(NullReference)
    ensures resources.Some? ==> parsed == Ok(NonStageableLines(resources.value, definitionOf))
  {
    var parsedResources: seq<NonStageableResource> := [];
    if resources.Some? && |resources.value| == 0 {
      return Ok(parsedResources);
    }
    if resources.None? {
      return Err(NullReference);
    }
    var rs := resources.value;
    for i := 0 to |rs|
      invariant parsedResources == NonStageableLines(rs[..i], definitionOf)
    {
      assert rs[..i + 1][..i] == rs[..i];
      var definition := definitionOf(rs[i].resourceId);
      if definition.nonStageable {
        parsedResources := parsedResources + [NonStageableResource(
          definition.displayName, rs[i].storedUnits, rs[i].capacityUnits, UnitFor(definition.name))];
      }
    }
    assert rs[..|rs|] == rs;
    return Ok(parsedResources);
  }
}
