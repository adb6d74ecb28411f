/**
 * The flight-scene stage entries: the per-stage table (`StageInfo.ParseStages`) and the
 * dry, fuel and end mass of the current stage.
 */
module StageInfoEntries {
  import opened Wrappers
  import Utility

  /** One stage of the host's delta-v report (`DeltaVStageInfo`), masses in tonnes. */
  datatype DeltaVStageInfo = DeltaVStageInfo(
    stage: int,
    deltaVinVac: real, deltaVatASL: real, deltaVActual: real, twrActual: real,
    stageBurnTime: Utility.Seconds,
    dryMass: real, startMass: real, endMass: real, fuelMass: real)

  /** `VesselDeltaV`: its `StageInfo` list may itself be null. */
  datatype VesselDeltaV = VesselDeltaV(stageInfo: Option<seq<DeltaVStageInfo>>)

  /** One row of the stage table (`Stage`). */
  datatype Stage = Stage(
    stageNumber: int, deltaVActual: real, twrActual: real,
    burnDays: int, burnHours: int, burnMinutes: int, burnSeconds: int)

  /** The delta-v a stage must exceed, in either medium, to be listed. */
  const MinimumDeltaV: real := 0.0001

  predicate IsNonEmpty(s: DeltaVStageInfo)
  {
    s.deltaVinVac > MinimumDeltaV || s.deltaVatASL > MinimumDeltaV
  }

  /** The stages that have delta-v left, in input order. */
  function NonEmptyStages(ss: seq<DeltaVStageInfo>): seq<DeltaVStageInfo>
  {
    if ss == [] then [] else (if IsNonEmpty(ss[0]) then [ss[0]] else []) + NonEmptyStages(ss[1..])
  }

  /** The filter keeps exactly the stages with delta-v, and keeps their order. */
  lemma {:induction false} NonEmptyStagesSpec(a: seq<DeltaVStageInfo>, b: seq<DeltaVStageInfo>)
    ensures NonEmptyStages(a + b) == NonEmptyStages(a) + NonEmptyStages(b)
    ensures forall s :: s in NonEmptyStages(a) <==> s in a && IsNonEmpty(s)
  {
    if a == [] {
      assert a + b == b;
    } else {
      assert (a + b)[0] == a[0] && (a + b)[1..] == a[1..] + b;
      NonEmptyStagesSpec(a[1..], b);
      assert a == [a[0]] + a[1..];
    }
  }

  /** One table row, numbered against the length of the whole report. */
  function ToStage(s: DeltaVStageInfo, reportLength: int, limits: Utility.TimeLimits): Stage
  {
    var time := Utility.ParseSecondsToTimeFormat(s.stageBurnTime, limits);
    Stage(reportLength - s.stage, s.deltaVActual, s.twrActual,
          time.days, time.hours, time.minutes, time.seconds)
  }

  /** The elements of `s`, last first. */
  function Reverse<T>(s: seq<T>): (r: seq<T>)
    ensures |r| == |s|
    ensures forall k :: 0 <= k < |s| ==> r[k] == s[|s| - 1 - k]
  {
    if s == [] then [] else Reverse(s[1..]) + [s[0]]
  }

  /** The stage table: the non-empty stages, last first. */
  function StageTable(report: Option<seq<DeltaVStageInfo>>, limits: Utility.TimeLimits): seq<Stage>
  {
    match report
    case None => []
    case Some(ss) =>
      var rev := Reverse(NonEmptyStages(ss));
      seq(|rev|, k requires 0 <= k < |rev| => ToStage(rev[k], |ss|, limits))
  }

  /** `ParseStages`: filter the report, then walk it backwards building one row per stage. */
  method ParseStages(report: Option<seq<DeltaVStageInfo>>, limits: Utility.TimeLimits) returns (stages: seq<Stage>)
    ensures stages == StageTable(report, limits)
  {
    stages := [];
    if report.None? {
      return;
    }
    var deltaVStages := report.value;
    var nonEmpty: seq<DeltaVStageInfo> := [];
    for j := 0 to |deltaVStages|
      invariant nonEmpty == NonEmptyStages(deltaVStages[..j])
    {
      assert deltaVStages[..j + 1] == deltaVStages[..j] + [deltaVStages[j]];
      NonEmptyStagesSpec(deltaVStages[..j], [deltaVStages[j]]);
      assert [deltaVStages[j]][1..] == [];
      if IsNonEmpty(deltaVStages[j]) {
        nonEmpty := nonEmpty + [deltaVStages[j]];
      }
    }
    assert deltaVStages[..|deltaVStages|] == deltaVStages;
    var i := |nonEmpty| - 1;
    while i >= 0
      invariant -1 <= i < |nonEmpty|
      invariant |stages| == |nonEmpty| - 1 - i
      invariant forall k :: 0 <= k < |stages| ==>
        stages[k] == ToStage(nonEmpty[|nonEmpty| - 1 - k], |deltaVStages|, limits)
    {
      var time := Utility.ParseSecondsToTimeFormat(nonEmpty[i].stageBurnTime, limits);
      var stage := Stage(|deltaVStages| - nonEmpty[i].stage, nonEmpty[i].deltaVActual,
                         nonEmpty[i].twrActual, time.days, time.hours, time.minutes, time.seconds);
      stages := stages + [stage];
      i := i - 1;
    }
  }

  /** With no report the table is empty. */
  lemma StageTableOfNull(limits: Utility.TimeLimits)
    ensures StageTable(None, limits) == []
  {
  }

  /**
   * Row k of the table is the k-th non-empty stage counted from the end of the report,
   * numbered by the report's full length (not the filtered count); every row comes
   * from a stage with delta-v and every such stage has a row.
   */
  lemma StageTableRows(ss: seq<DeltaVStageInfo>, limits: Utility.TimeLimits)
    ensures var t := StageTable(Some(ss), limits);
      var rev := Reverse(NonEmptyStages(ss));
      && |t| == |rev|
      && (forall k :: 0 <= k < |t| ==> t[k].stageNumber == |ss| - rev[k].stage)
      && (forall k :: 0 <= k < |t| ==> IsNonEmpty(rev[k]) && rev[k] in ss)
      && (forall s :: s in ss && IsNonEmpty(s) ==> s in rev)
  {
    var rev := Reverse(NonEmptyStages(ss));
    var t := StageTable(Some(ss), limits);
    ReversedStagesSpec(ss);
    forall k | 0 <= k < |t|
      ensures t[k].stageNumber == |ss| - rev[k].stage
    {
      assert t[k] == ToStage(rev[k], |ss|, limits);
    }
  }

  /** The stages walked backwards are exactly the stages with delta-v left. */
  lemma ReversedStagesSpec(ss: seq<DeltaVStageInfo>)
    ensures var rev := Reverse(NonEmptyStages(ss));
      && (forall k :: 0 <= k < |rev| ==> IsNonEmpty(rev[k]) && rev[k] in ss)
      && (forall s :: s in ss && IsNonEmpty(s) ==> s in rev)
  {
    var ne := NonEmptyStages(ss);
    var rev := Reverse(ne);
    NonEmptyStagesSpec(ss, []);
    forall k | 0 <= k < |rev|
      ensures rev[k] in ne
    {
      assert rev[k] == ne[|ne| - 1 - k];
    }
    forall s | s in ss && IsNonEmpty(s)
      ensures s in rev
    {
      var m :| 0 <= m < |ne| && ne[m] == s;
      assert rev[|ne| - 1 - m] == s;
    }
  }

  /**
   * The burn columns drop the years: for a finite, non-negative burn time they are the
   * rounded-up seconds modulo one game year, each column in its range.
   */
  lemma BurnTimeWithinYear(s: DeltaVStageInfo, reportLength: int, limits: Utility.TimeLimits)
    requires s.stageBurnTime.Finite? && s.stageBurnTime.value >= 0.0
    ensures var r := ToStage(s, reportLength, limits);
      && 0 <= r.burnDays < 426 && 0 <= r.burnHours < 6 && 0 <= r.burnMinutes < 60 && 0 <= r.burnSeconds < 60
      && r.burnDays * Utility.SecondsPerDay + r.burnHours * Utility.SecondsPerHour
         + r.burnMinutes * Utility.SecondsPerMinute + r.burnSeconds
         == Utility.Ceiling(s.stageBurnTime.value) % Utility.SecondsPerYear
  {
    var t := Utility.ParseSecondsToTimeFormat(s.stageBurnTime, limits);
    var n := Utility.Ceiling(s.stageBurnTime.value);
    var rest := t.days * Utility.SecondsPerDay + t.hours * Utility.SecondsPerHour
                + t.minutes * Utility.SecondsPerMinute + t.seconds;
    assert n == t.years * Utility.SecondsPerYear + rest;
    assert 0 <= rest < Utility.SecondsPerYear;
  }

  // ---------------------------------------------------------------------------
  // Current-stage masses (kilograms; `None` is a null entry value)
  // ---------------------------------------------------------------------------

  /**
   * `VesselDeltaV?.StageInfo.FirstOrDefault()`: null when there is no delta-v report or
   * no stage; a report whose stage list is null makes `FirstOrDefault` throw.
   */
  function FirstStage(deltaV: Option<VesselDeltaV>): (r: Result<Option<DeltaVStageInfo>, Failure>)
    ensures r.Err? <==> deltaV.Some? && deltaV.value.stageInfo.None?
    ensures r.Ok? && r.value.Some? <==>
      deltaV.Some? && deltaV.value.stageInfo.Some? && |deltaV.value.stageInfo.value| > 0
    ensures r.Ok? && r.value.Some? ==> r.value.value == deltaV.value.stageInfo.value[0]
  {
    match deltaV
    case None => Ok(None)
    case Some(d) =>
      match d.stageInfo
      case None => Err(ArgumentNull)
      case Some(ss) => if |ss| == 0 then Ok(None) else Ok(Some(ss[0]))
  }

  /** `StageDryMass.RefreshData`: what the current stage sheds on staging. */
  function StageDryMass(deltaV: Option<VesselDeltaV>): (r: Option<real>)
    ensures r.None? <==> deltaV.None? || deltaV.value.stageInfo.None? || |deltaV.value.stageInfo.value| == 0
  {
    if deltaV.None? || deltaV.value.stageInfo.None? || |deltaV.value.stageInfo.value| == 0 then None
    else
      var ss := deltaV.value.stageInfo.value;
      Some((if |ss| >= 2 then ss[0].dryMass - ss[1].dryMass else ss[0].dryMass) * 1000.0)
  }

  /** The stage dry mass plus the next stage's dry mass is the whole dry mass, in kilograms. */
  lemma StageDryMassSplits(deltaV: VesselDeltaV)
    requires deltaV.stageInfo.Some? && |deltaV.stageInfo.value| >= 1
    ensures var ss := deltaV.stageInfo.value;
      StageDryMass(Some(deltaV)).Some?
      && StageDryMass(Some(deltaV)).value + (if |ss| >= 2 then ss[1].dryMass * 1000.0 else 0.0)
         == ss[0].dryMass * 1000.0
  {
  }

  /** `StageFuelMass.RefreshData`: start minus end mass, or 0 when the end mass is 0. */
  function StageFuelMass(deltaV: Option<VesselDeltaV>): (r: Result<Option<real>, Failure>)
    ensures r.Err? <==> FirstStage(deltaV).Err?
    ensures r.Ok? && r.value.Some? <==> FirstStage(deltaV).Ok? && FirstStage(deltaV).value.Some?
    ensures r.Ok? && r.value.Some? ==>
      var stage := FirstStage(deltaV).value.value;
      r.value.value == (if stage.endMass != 0.0 then (stage.startMass - stage.endMass) * 1000.0 else 0.0)
  {
    match FirstStage(deltaV)
    case Err(e) => Err(e)
    case Ok(None) => Ok(None)
    case Ok(Some(stage)) =>
      Ok(Some(if stage.endMass != 0.0 then (stage.startMass - stage.endMass) * 1000.0 else 0.0))
  }

  /** `StageEndMass.RefreshData`: the start mass when the end mass is 0, null when they are equal. */
  function StageEndMass(deltaV: Option<VesselDeltaV>): (r: Result<Option<real>, Failure>)
    ensures r.Err? <==> FirstStage(deltaV).Err?
    ensures r.Ok? && r.value.Some? ==> FirstStage(deltaV).Ok? && FirstStage(deltaV).value.Some?
    ensures FirstStage(deltaV).Ok? && FirstStage(deltaV).value.Some? ==>
      var stage := FirstStage(deltaV).value.value;
      && r.Ok?
      && (r.value.None? <==> stage.endMass != 0.0 && stage.endMass == stage.startMass)
      && (r.value.Some? ==>
            r.value.value == (if stage.endMass == 0.0 then stage.startMass else stage.endMass) * 1000.0)
  {
    match FirstStage(deltaV)
    case Err(e) => Err(e)
    case Ok(None) => Ok(None)
    case Ok(Some(stage)) =>
      Ok(if stage.endMass == 0.0 then Some(stage.startMass * 1000.0)
         else if stage.endMass == stage.startMass then None
         else Some(stage.endMass * 1000.0))
  }

  /**
   * The fuel and end masses shown together always add up to the stage's start mass; the
   * end mass is missing exactly when a non-zero end mass equals the start mass, and then
   * the fuel mass is 0.
   */
  lemma FuelPlusEndIsStart(deltaV: Option<VesselDeltaV>)
    requires FirstStage(deltaV).Ok? && FirstStage(deltaV).value.Some?
    ensures var stage := FirstStage(deltaV).value.value;
      var fuel, end := StageFuelMass(deltaV).value, StageEndMass(deltaV).value;
      && fuel.Some?
      && fuel.value == (if stage.endMass != 0.0 then (stage.startMass - stage.endMass) * 1000.0 else 0.0)
      && (end.Some? ==>
            end.value == (if stage.endMass == 0.0 then stage.startMass else stage.endMass) * 1000.0)
      && (end.None? <==> stage.endMass != 0.0 && stage.endMass == stage.startMass)
      && (end.Some? ==> fuel.value + end.value == stage.startMass * 1000.0)
      && (end.None? ==> fuel.value == 0.0)
  {
  }
}
