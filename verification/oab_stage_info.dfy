/**
 * The vehicle-assembly-building (OAB) stage entries: the per-stage list rebuilt on every
 * refresh together with the per-stage celestial-body list it keeps across refreshes,
 * and the thrust torque entry.
 */
module OabStageInfoEntries {
  import opened Wrappers
  import Utility
  import StageInfoEntries

  /** A celestial body a stage's TWR is computed for, with its TWR factor against the home body. */
  datatype CelestialBody = CelestialBody(name: string, twrFactor: real)

  /** One stage of the host's OAB delta-v report (`DeltaVStageInfo`). */
  datatype OabStageReport = OabStageReport(
    stage: int,
    deltaVActual: real, deltaVatASL: real, deltaVinVac: real,
    dryMass: real, endMass: real, startMass: real,
    twrActual: real, twrASL: real, twrVac: real,
    stageBurnTime: Utility.Seconds)

  /** The host's sea-level physics for a stage on a body (engine and atmosphere calls). */
  type SeaLevelPhysics = (OabStageReport, CelestialBody) -> real

  /** `DeltaVStageInfo_OAB`: one stage as shown in the OAB window. */
  class DeltaVStageInfoOab {
    var index: int
    var deltaVActual: real
    var deltaVASL: real
    var deltaVVac: real
    var dryMass: real
    var endMass: real
    var startMass: real
    var stage: int
    var stageBurnTime: Utility.TimeParsed
    var twrActual: real
    var twrASL: real
    var twrVac: real
    var celestialBody: Option<CelestialBody>
    /** The host record the fields were copied from (`DeltaVStageInfo`). */
    var retrieved: OabStageReport

    /** The object initializer of `RefreshData`: copy the host record, parse the burn time. */
    constructor (index: int, r: OabStageReport, limits: Utility.TimeLimits)
      ensures this.index == index && retrieved == r && celestialBody.None?
      ensures deltaVActual == r.deltaVActual && deltaVASL == r.deltaVatASL && deltaVVac == r.deltaVinVac
      ensures dryMass == r.dryMass && endMass == r.endMass && startMass == r.startMass
      ensures stage == r.stage && twrActual == r.twrActual && twrASL == r.twrASL && twrVac == r.twrVac
      ensures stageBurnTime == Utility.ParseSecondsToTimeFormat(r.stageBurnTime, limits)
    {
      this.index, retrieved, celestialBody := index, r, None;
      deltaVActual, deltaVASL, deltaVVac := r.deltaVActual, r.deltaVatASL, r.deltaVinVac;
      dryMass, endMass, startMass := r.dryMass, r.endMass, r.startMass;
      stage, twrActual, twrASL, twrVac := r.stage, r.twrActual, r.twrASL, r.twrVac;
      stageBurnTime := Utility.ParseSecondsToTimeFormat(r.stageBurnTime, limits);
    }

    /** `Recalculate_TWR`: scale the vacuum TWR by the attached body's factor. */
    method RecalculateTwr()
      requires celestialBody.Some?
      modifies this
      ensures celestialBody == old(celestialBody) && retrieved == old(retrieved)
      ensures twrVac == old(twrVac) * celestialBody.value.twrFactor
      ensures index == old(index) && deltaVActual == old(deltaVActual) && deltaVASL == old(deltaVASL)
      ensures deltaVVac == old(deltaVVac) && dryMass == old(dryMass) && endMass == old(endMass)
      ensures startMass == old(startMass) && stage == old(stage) && stageBurnTime == old(stageBurnTime)
      ensures twrActual == old(twrActual) && twrASL == old(twrASL)
    {
      twrVac := twrVac * celestialBody.value.twrFactor;
    }

    /** `Recalculate_SLT`: the sea-level TWR on the attached body, scaled by its factor. */
    method RecalculateSeaLevelTwr(seaLevelTwr: SeaLevelPhysics)
      requires celestialBody.Some?
      modifies this
      ensures celestialBody == old(celestialBody) && retrieved == old(retrieved)
      ensures twrASL == seaLevelTwr(retrieved, celestialBody.value) * celestialBody.value.twrFactor
      ensures index == old(index) && deltaVActual == old(deltaVActual) && deltaVASL == old(deltaVASL)
      ensures deltaVVac == old(deltaVVac) && dryMass == old(dryMass) && endMass == old(endMass)
      ensures startMass == old(startMass) && stage == old(stage) && stageBurnTime == old(stageBurnTime)
      ensures twrActual == old(twrActual) && twrVac == old(twrVac)
    {
      twrASL := seaLevelTwr(retrieved, celestialBody.value) * celestialBody.value.twrFactor;
    }

    /** `Recalculate_DeltaVSeaLevel`: the sea-level delta-v on the attached body. */
    method RecalculateDeltaVSeaLevel(seaLevelDeltaV: SeaLevelPhysics)
      requires celestialBody.Some?
      modifies this
      ensures celestialBody == old(celestialBody) && retrieved == old(retrieved)
      ensures deltaVASL == seaLevelDeltaV(retrieved, celestialBody.value)
      ensures index == old(index) && deltaVActual == old(deltaVActual) && twrASL == old(twrASL)
      ensures deltaVVac == old(deltaVVac) && dryMass == old(dryMass) && endMass == old(endMass)
      ensures startMass == old(startMass) && stage == old(stage) && stageBurnTime == old(stageBurnTime)
      ensures twrActual == old(twrActual) && twrVac == old(twrVac)
    {
      deltaVASL := seaLevelDeltaV(retrieved, celestialBody.value);
    }

    /** `Recalculate_StageNumber`: number the stage from the bottom of the stack. */
    method RecalculateStageNumber(noOfStages: int)
      modifies this
      ensures stage == noOfStages - old(stage)
      ensures index == old(index) && deltaVActual == old(deltaVActual) && twrASL == old(twrASL)
      ensures deltaVVac == old(deltaVVac) && dryMass == old(dryMass) && endMass == old(endMass)
      ensures startMass == old(startMass) && deltaVASL == old(deltaVASL) && stageBurnTime == old(stageBurnTime)
      ensures twrActual == old(twrActual) && twrVac == old(twrVac)
      ensures celestialBody == old(celestialBody) && retrieved == old(retrieved)
    {
      stage := noOfStages - stage;
    }
  }

  /**
   * Stage `s` was built from host record `r` at position `i` of a report of `n` stages,
   * attached to `body`: copied, renumbered, and recalculated on that body.
   */
  predicate StageBuiltFrom(s: DeltaVStageInfoOab, i: int, r: OabStageReport, n: int, body: CelestialBody,
                           limits: Utility.TimeLimits, seaLevelTwr: SeaLevelPhysics,
                           seaLevelDeltaV: SeaLevelPhysics)
    reads s
  {
    && s.index == i && s.retrieved == r && s.celestialBody == Some(body)
    && s.deltaVActual == r.deltaVActual && s.deltaVVac == r.deltaVinVac
    && s.dryMass == r.dryMass && s.endMass == r.endMass && s.startMass == r.startMass
    && s.twrActual == r.twrActual
    && s.stageBurnTime == Utility.ParseSecondsToTimeFormat(r.stageBurnTime, limits)
    && s.twrVac == r.twrVac * body.twrFactor
    && s.twrASL == seaLevelTwr(r, body) * body.twrFactor
    && s.deltaVASL == seaLevelDeltaV(r, body)
    && s.stage == n - r.stage
  }

  /** The per-stage body list after a refresh of `n` stages: old entries kept, new stages get `home`. */
  function GrownBodies(before: seq<CelestialBody>, n: nat, home: CelestialBody): (after: seq<CelestialBody>)
    ensures |after| == if n <= |before| then |before| else n
    ensures after[..|before|] == before
    ensures forall i :: |before| <= i < |after| ==> after[i] == home
  {
    if n <= |before| then before else before + seq(n - |before|, _ => home)
  }

  /** Growing is idempotent: a second refresh of the same report leaves the body list as it is. */
  lemma GrownBodiesIdempotent(before: seq<CelestialBody>, n: nat, home: CelestialBody)
    ensures GrownBodies(GrownBodies(before, n, home), n, home) == GrownBodies(before, n, home)
  {
  }

  /**
   * One more stage: the body list grows by `home` exactly when it was too short, and the
   * entries up to that stage are those of the final list.
   */
  lemma GrownBodiesStep(before: seq<CelestialBody>, i: nat, n: nat, home: CelestialBody)
    requires i < n
    ensures GrownBodies(before, i + 1, home)
         == if i < |GrownBodies(before, i, home)| then GrownBodies(before, i, home)
            else GrownBodies(before, i, home) + [home]
    ensures GrownBodies(before, i + 1, home)[i] == GrownBodies(before, n, home)[i]
  {
  }

  predicate HasDeltaV(s: DeltaVStageInfoOab)
    reads s
  {
    s.deltaVVac > StageInfoEntries.MinimumDeltaV || s.deltaVASL > StageInfoEntries.MinimumDeltaV
  }

  /** The stages with delta-v left, in order: what the change event is raised with. */
  function StagesWithDeltaV(ss: seq<DeltaVStageInfoOab>): seq<DeltaVStageInfoOab>
    reads ss
  {
    if ss == [] then [] else (if HasDeltaV(ss[0]) then [ss[0]] else []) + StagesWithDeltaV(ss[1..])
  }

  /** The event list holds exactly the stages with delta-v left. */
  lemma {:induction false} StagesWithDeltaVSpec(ss: seq<DeltaVStageInfoOab>)
    ensures forall s :: s in StagesWithDeltaV(ss) <==> s in ss && HasDeltaV(s)
  {
    if ss != [] {
      StagesWithDeltaVSpec(ss[1..]);
      assert ss == [ss[0]] + ss[1..];
    }
  }

  /** One iteration of `RefreshData`: a new stage copied from `r`, attached to `body` and recalculated. */
  method BuildStage(i: int, r: OabStageReport, n: int, body: CelestialBody, limits: Utility.TimeLimits,
                    seaLevelTwr: SeaLevelPhysics, seaLevelDeltaV: SeaLevelPhysics)
    returns (stage: DeltaVStageInfoOab)
    ensures fresh(stage)
    ensures StageBuiltFrom(stage, i, r, n, body, limits, seaLevelTwr, seaLevelDeltaV)
  {
    stage := new DeltaVStageInfoOab(i, r, limits);
    stage.celestialBody := Some(body);
    stage.RecalculateTwr();
    stage.RecalculateSeaLevelTwr(seaLevelTwr);
    stage.RecalculateDeltaVSeaLevel(seaLevelDeltaV);
    stage.RecalculateStageNumber(n);
  }

  /** Every stage so far was built from its report entry, on the body the final list gives it. */
  predicate AllBuiltFrom(stages: seq<DeltaVStageInfoOab>, rs: seq<OabStageReport>, bodies: seq<CelestialBody>,
                         limits: Utility.TimeLimits, seaLevelTwr: SeaLevelPhysics,
                         seaLevelDeltaV: SeaLevelPhysics)
    reads stages
  {
    && |stages| <= |rs| && |stages| <= |bodies|
    && forall j :: 0 <= j < |stages| ==>
         StageBuiltFrom(stages[j], j, rs[j], |rs|, bodies[j], limits, seaLevelTwr, seaLevelDeltaV)
  }

  /** Event k was raised with the stages that have delta-v among the first k + 1. */
  predicate EventsOf(events: seq<seq<DeltaVStageInfoOab>>, stages: seq<DeltaVStageInfoOab>)
    reads stages
  {
    |events| == |stages| && forall k :: 0 <= k < |stages| ==> events[k] == StagesWithDeltaV(stages[..k + 1])
  }

  /** Raising the event for one more stage keeps the events in step with the stages. */
  lemma EventsOfExtend(events: seq<seq<DeltaVStageInfoOab>>, stages: seq<DeltaVStageInfoOab>,
                       s: DeltaVStageInfoOab)
    requires EventsOf(events, stages)
    ensures EventsOf(events + [StagesWithDeltaV(stages + [s])], stages + [s])
  {
    var stages', events' := stages + [s], events + [StagesWithDeltaV(stages + [s])];
    forall k | 0 <= k < |stages'|
      ensures events'[k] == StagesWithDeltaV(stages'[..k + 1])
    {
      if k < |stages| {
        assert stages'[..k + 1] == stages[..k + 1];
      } else {
        assert stages'[..k + 1] == stages';
      }
    }
  }

  /**
   * The loop of `RefreshData`: stage i is built from report entry i on the i-th body of
   * the list, the list growing by `home` where it is too short.
   */
  method BuildStages(rs: seq<OabStageReport>, bodiesBefore: seq<CelestialBody>, home: CelestialBody,
                     limits: Utility.TimeLimits, seaLevelTwr: SeaLevelPhysics, seaLevelDeltaV: SeaLevelPhysics)
    returns (stages: seq<DeltaVStageInfoOab>, bodies: seq<CelestialBody>, events: seq<seq<DeltaVStageInfoOab>>)
    ensures |stages| == |rs| && |events| == |rs|
    ensures bodies == GrownBodies(bodiesBefore, |rs|, home)
    ensures forall j :: 0 <= j < |rs| ==> fresh(stages[j])
    ensures forall j, k :: 0 <= j < k < |rs| ==> stages[j] != stages[k]
    ensures forall j :: 0 <= j < |rs| ==>
      StageBuiltFrom(stages[j], j, rs[j], |rs|, bodies[j], limits, seaLevelTwr, seaLevelDeltaV)
    ensures forall k :: 0 <= k < |rs| ==> events[k] == StagesWithDeltaV(stages[..k + 1])
  {
    stages, bodies, events := [], bodiesBefore, [];
    ghost var final := GrownBodies(bodiesBefore, |rs|, home);
    for i := 0 to |rs|
      invariant |stages| == i
      invariant bodies == GrownBodies(bodiesBefore, i, home)
      invariant forall j :: 0 <= j < i ==> fresh(stages[j])
      invariant forall j, k :: 0 <= j < k < i ==> stages[j] != stages[k]
      invariant AllBuiltFrom(stages, rs, final, limits, seaLevelTwr, seaLevelDeltaV)
      invariant EventsOf(events, stages)
    {
      GrownBodiesStep(bodiesBefore, i, |rs|, home);
      if i >= |bodies| {
        bodies := bodies + [home];
      }
      var stage := BuildStage(i, rs[i], |rs|, bodies[i], limits, seaLevelTwr, seaLevelDeltaV);
      EventsOfExtend(events, stages, stage);
      stages := stages + [stage];
      events := events + [StagesWithDeltaV(stages)];
    }
  }

  /** `StageInfo_OAB`: the stage list and the body chosen for each stage. */
  class StageInfoOab {
    var entryValue: seq<DeltaVStageInfoOab>
    var celestialBodyForStage: seq<CelestialBody>

    constructor ()
      ensures entryValue == [] && celestialBodyForStage == []
    {
      entryValue, celestialBodyForStage := [], [];
    }

    /** The state after a refresh with `report`, given the body list before it. */
    predicate RefreshedFrom(report: Option<seq<OabStageReport>>, bodiesBefore: seq<CelestialBody>,
                            home: CelestialBody, limits: Utility.TimeLimits,
                            seaLevelTwr: SeaLevelPhysics, seaLevelDeltaV: SeaLevelPhysics)
      reads this, entryValue
    {
      match report
      case None => entryValue == [] && celestialBodyForStage == bodiesBefore
      case Some(rs) =>
        && |entryValue| == |rs|
        && celestialBodyForStage == GrownBodies(bodiesBefore, |rs|, home)
        && forall i :: 0 <= i < |rs| ==>
             StageBuiltFrom(entryValue[i], i, rs[i], |rs|, celestialBodyForStage[i], limits,
                            seaLevelTwr, seaLevelDeltaV)
    }

    /**
     * `RefreshData`. `report` is the host's stage list (null when there is none), `home`
     * the home body new stages start on. Returns the list each change event is raised
     * with: after stage k is added, the stages so far that have delta-v.
     */
    method RefreshData(report: Option<seq<OabStageReport>>, home: CelestialBody, limits: Utility.TimeLimits,
                       seaLevelTwr: SeaLevelPhysics, seaLevelDeltaV: SeaLevelPhysics)
      returns (events: seq<seq<DeltaVStageInfoOab>>)
      modifies this
      ensures RefreshedFrom(report, old(celestialBodyForStage), home, limits, seaLevelTwr, seaLevelDeltaV)
      ensures forall i :: 0 <= i < |entryValue| ==> fresh(entryValue[i])
      ensures forall i, j :: 0 <= i < j < |entryValue| ==> entryValue[i] != entryValue[j]
      ensures |events| == |entryValue|
      ensures forall k :: 0 <= k < |events| ==> events[k] == StagesWithDeltaV(entryValue[..k + 1])
    {
      entryValue := [];
      events := [];
      if report.None? {
        return;
      }
      entryValue, celestialBodyForStage, events :=
        BuildStages(report.value, celestialBodyForStage, home, limits, seaLevelTwr, seaLevelDeltaV);
    }

    /**
     * `UpdateCelestialBodyAtIndex`: put `body` at `index` of the body list and refresh.
     * An index outside the list throws before anything changes.
     */
    method UpdateCelestialBodyAtIndex(index: int, body: CelestialBody, report: Option<seq<OabStageReport>>,
                                      home: CelestialBody, limits: Utility.TimeLimits,
                                      seaLevelTwr: SeaLevelPhysics, seaLevelDeltaV: SeaLevelPhysics)
      returns (outcome: Option<Failure>)
      modifies this
      ensures outcome.Some? <==> !(0 <= index < |old(celestialBodyForStage)|)
      ensures outcome.Some? ==>
        outcome.value == ArgumentOutOfRange
        && entryValue == old(entryValue) && celestialBodyForStage == old(celestialBodyForStage)
      ensures outcome.None? ==>
        RefreshedFrom(report, old(celestialBodyForStage)[index := body], home, limits, seaLevelTwr, seaLevelDeltaV)
    {
      if !(0 <= index < |celestialBodyForStage|) {
        return Some(ArgumentOutOfRange);
      }
      celestialBodyForStage := celestialBodyForStage[index := body];
      var _ := RefreshData(report, home, limits, seaLevelTwr, seaLevelDeltaV);
      outcome := None;
    }
  }

  // ---------------------------------------------------------------------------
  // Torque
  // ---------------------------------------------------------------------------

  datatype Vector3 = Vector3(x: real, y: real, z: real)

  const Zero: Vector3 := Vector3(0.0, 0.0, 0.0)

  function Add(a: Vector3, b: Vector3): Vector3
  {
    Vector3(a.x + b.x, a.y + b.y, a.z + b.z)
  }

  function Subtract(a: Vector3, b: Vector3): Vector3
  {
    Vector3(a.x - b.x, a.y - b.y, a.z - b.z)
  }

  /** The sum of the vectors, added left to right. */
  function Sum(vs: seq<Vector3>): Vector3
  {
    if vs == [] then Zero else Add(Sum(vs[..|vs| - 1]), vs[|vs| - 1])
  }

  /** Summing a concatenation adds the sums of the parts. */
  lemma {:induction false} SumAppend(a: seq<Vector3>, b: seq<Vector3>)
    ensures Sum(a + b) == Add(Sum(a), Sum(b))
    decreases |b|
  {
    if b == [] {
      assert a + b == a;
    } else {
      var b' := b[..|b| - 1];
      assert (a + b)[..|a + b| - 1] == a + b';
      SumAppend(a, b');
    }
  }

  /** The host's `Vector3d.Cross(force, leverArm).magnitude`. */
  type TorqueMagnitude = (Vector3, Vector3) -> real

  /** The `Torque` entry: its value and the unit it is shown in. */
  class Torque {
    var entryValue: Option<real>
    var baseUnit: Option<string>

    constructor ()
      ensures entryValue.None? && baseUnit.None?
    {
      entryValue, baseUnit := None, None;
    }

    /**
     * `Torque.RefreshData`. `com` and `cot` are the centres of mass and thrust (zero when
     * the host has none), `engines` the vacuum thrust vectors of the engines (null when
     * the host has no list).
     */
    method RefreshData(com: Vector3, cot: Vector3, engines: Option<seq<Vector3>>, magnitude: TorqueMagnitude)
      modifies this
      ensures com == Zero || cot == Zero || engines.None? || |engines.value| == 0 ==>
        entryValue == old(entryValue) && baseUnit == old(baseUnit)
      ensures !(com == Zero || cot == Zero || engines.None? || |engines.value| == 0) ==>
        && entryValue == Some(magnitude(Sum(engines.value), Subtract(cot, com)))
        && baseUnit == Some(TorqueUnit(entryValue.value))
    {
      if com == Zero || cot == Zero {
        return;
      }
      if engines.None? || |engines.value| == 0 {
        return;
      }
      var es := engines.value;
      var force := Zero;
      for i := 0 to |es|
        invariant force == Sum(es[..i])
      {
        assert es[..i + 1][..i] == es[..i];
        force := Add(force, es[i]);
      }
      assert es[..|es|] == es;
      var leverArm := Subtract(cot, com);
      var value := magnitude(force, leverArm);
      entryValue := Some(value);
      baseUnit := Some(TorqueUnit(value));
    }
  }

  /** The unit rule: "kNm" exactly from 1.0 upward. */
  function TorqueUnit(value: real): (unit: string)
    ensures unit == "kNm" <==> value >= 1.0
    ensures unit == "Nm" <==> value < 1.0
  {
    if value >= 1.0 then "kNm" else "Nm"
  }
}
