/**
 * `Utility`: the game-calendar split of a second count, the degrees/minutes/seconds
 * split of an angle, the enum-to-text mappers, and the version gate of a loaded layout.
 */
module Utility {
  import opened Wrappers
  import opened Text
  import Windows
  import Managers

  // ---------------------------------------------------------------------------
  // Seconds to the game calendar (1 year = 426 days, 1 day = 6 hours)
  // ---------------------------------------------------------------------------

  const SecondsPerMinute: int := 60
  const SecondsPerHour: int := 3600
  const SecondsPerDay: int := 21600
  const SecondsPerYear: int := 9201600

  /** A `double` second count: a finite value or one of the two infinities. */
  datatype Seconds = Finite(value: real) | PositiveInfinity | NegativeInfinity

  datatype TimeParsed = TimeParsed(years: int, days: int, hours: int, minutes: int, seconds: int)

  /** `TimeParsed.MaxValue()` and `TimeParsed.MinValue()`, whose definitions are taken as given. */
  datatype TimeLimits = TimeLimits(maxValue: TimeParsed, minValue: TimeParsed)

  /** `Math.Ceiling` of a finite `double`. */
  function Ceiling(x: real): (c: int)
    ensures x <= c as real < x + 1.0
  {
    -((-x).Floor)
  }

  function Abs(i: int): nat
  {
    if i < 0 then -i else i
  }

  /** The number of seconds the parts stand for. */
  function TotalSeconds(t: TimeParsed): int
  {
    t.years * SecondsPerYear + t.days * SecondsPerDay + t.hours * SecondsPerHour
      + t.minutes * SecondsPerMinute + t.seconds
  }

  /** Every part non-negative and below the size of the next larger unit. */
  predicate Normalized(t: TimeParsed)
  {
    && 0 <= t.years
    && 0 <= t.days < 426
    && 0 <= t.hours < 6
    && 0 <= t.minutes < 60
    && 0 <= t.seconds < 60
  }

  /** The part-wise absolute value. */
  function Magnitudes(t: TimeParsed): TimeParsed
  {
    TimeParsed(Abs(t.years), Abs(t.days), Abs(t.hours), Abs(t.minutes), Abs(t.seconds))
  }

  /** Exactly the most significant non-zero part is negative; the others are not. */
  predicate NegativeAtLeadingPart(t: TimeParsed)
  {
    if t.years != 0 then t.years < 0 && t.days >= 0 && t.hours >= 0 && t.minutes >= 0 && t.seconds >= 0
    else if t.days != 0 then t.days < 0 && t.hours >= 0 && t.minutes >= 0 && t.seconds >= 0
    else if t.hours != 0 then t.hours < 0 && t.minutes >= 0 && t.seconds >= 0
    else if t.minutes != 0 then t.minutes < 0 && t.seconds >= 0
    else t.seconds < 0
  }

  predicate AllNonNegative(t: TimeParsed)
  {
    t.years >= 0 && t.days >= 0 && t.hours >= 0 && t.minutes >= 0 && t.seconds >= 0
  }

  /** The inverse of the split: the signed second count a parsed time stands for. */
  function ToSeconds(t: TimeParsed): int
  {
    if AllNonNegative(t) then TotalSeconds(t) else -TotalSeconds(Magnitudes(t))
  }

  lemma DivisionParts(n: nat, d: int)
    requires d > 0
    ensures 0 <= n - (n / d) * d < d
  {
  }

  /** The straight-line arithmetic of the split, on the absolute second count. */
  function Decompose(n: nat): (t: TimeParsed)
    ensures Normalized(t)
    ensures TotalSeconds(t) == n
  {
    var years := n / SecondsPerYear;
    var days := (n - years * SecondsPerYear) / SecondsPerDay;
    var hours := (n - years * SecondsPerYear - days * SecondsPerDay) / SecondsPerHour;
    var minutes := (n - years * SecondsPerYear - days * SecondsPerDay - hours * SecondsPerHour)
                   / SecondsPerMinute;
    var seconds := n - years * SecondsPerYear - days * SecondsPerDay - hours * SecondsPerHour
                   - minutes * SecondsPerMinute;
    DivisionParts(n, SecondsPerYear);
    TimeParsed(years, days, hours, minutes, seconds)
  }

  /** The sign rule: negate the most significant non-zero part. */
  function NegateLeadingPart(t: TimeParsed): TimeParsed
  {
    if t.years != 0 then t.(years := -t.years)
    else if t.days != 0 then t.(days := -t.days)
    else if t.hours != 0 then t.(hours := -t.hours)
    else if t.minutes != 0 then t.(minutes := -t.minutes)
    else if t.seconds != 0 then t.(seconds := -t.seconds)
    else t
  }

  /**
   * `ParseSecondsToTimeFormat`. The infinities map to the limits; a finite value is
   * rounded up, split by magnitude, and a negative value has only its leading part negated.
   */
  function ParseSecondsToTimeFormat(input: Seconds, limits: TimeLimits): (t: TimeParsed)
    ensures input.PositiveInfinity? ==> t == limits.maxValue
    ensures input.NegativeInfinity? ==> t == limits.minValue
    ensures input.Finite? ==>
      && Normalized(Magnitudes(t))
      && TotalSeconds(Magnitudes(t)) == Abs(Ceiling(input.value))
      && (Ceiling(input.value) >= 0 ==> AllNonNegative(t))
      && (Ceiling(input.value) < 0 ==> NegativeAtLeadingPart(t))
  {
    match input
    case PositiveInfinity => limits.maxValue
    case NegativeInfinity => limits.minValue
    case Finite(x) =>
      var c := Ceiling(x);
      var parts := Decompose(Abs(c));
      if c < 0 then NegateLeadingPart(parts) else parts
  }

  /** Round trip: the parsed parts give back the rounded-up second count, sign included. */
  lemma ParsedTimeRoundTrip(x: real, limits: TimeLimits)
    ensures ToSeconds(ParseSecondsToTimeFormat(Finite(x), limits)) == Ceiling(x)
  {
    var t := ParseSecondsToTimeFormat(Finite(x), limits);
    if Ceiling(x) < 0 {
      assert !AllNonNegative(t);
    }
  }

  /** Zero seconds (and anything in (-1, 0]) parses to all zeros. */
  lemma ParseZero(x: real, limits: TimeLimits)
    requires -1.0 < x <= 0.0
    ensures ParseSecondsToTimeFormat(Finite(x), limits) == TimeParsed(0, 0, 0, 0, 0)
  {
    assert Ceiling(x) == 0;
  }

  // --- Finding: the `int` product in the `days` line wraps around ---

  /** C#'s unchecked 32-bit `int` arithmetic. */
  function Wrap32(x: int): int
  {
    (x + 0x8000_0000) % 0x1_0000_0000 - 0x8000_0000
  }

  /**
   * The `days` line as the C# evaluates it: `years * 9201600` is an `int` product,
   * wrapped to 32 bits before it is subtracted from the `double` second count.
   */
  function DaysAsWritten(n: nat): (days: int)
    ensures n < 234 * SecondsPerYear ==> days == Decompose(n).days
  {
    var years := n / SecondsPerYear;
    assert n < 234 * SecondsPerYear ==> years * SecondsPerYear < 0x8000_0000;
    (n - Wrap32(years * SecondsPerYear)) / SecondsPerDay
  }

  /** 234 years of seconds: the `int` product overflows and `days` leaves its range. */
  lemma DaysOverflowAt234Years()
    ensures Decompose(2153174400).days == 0
    ensures DaysAsWritten(2153174400) == 198841
    ensures !(0 <= DaysAsWritten(2153174400) < 426)
  {
    assert 2153174400 / SecondsPerYear == 234;
    assert Wrap32(234 * SecondsPerYear) == -2141792896;
  }

  // ---------------------------------------------------------------------------
  // Degrees to degrees/minutes/seconds
  // ---------------------------------------------------------------------------

  datatype LatLonParsed = LatLonParsed(degrees: int, minutes: int, seconds: int)

  /** `Int64.MaxValue / TimeSpan.TicksPerMillisecond`: the largest millisecond count of a TimeSpan. */
  const MaxTimeSpanMilliseconds: int := 922337203685477

  function RealAbs(x: real): real
  {
    if x < 0.0 then -x else x
  }

  /** `TimeSpan.FromHours(h)` rounds `h` hours to the nearest whole millisecond. */
  function RoundedMilliseconds(hours: real): real
  {
    hours * 3600000.0 + 0.5
  }

  lemma FloorOverThousand(z: real)
    requires z >= 0.0
    ensures z.Floor / 1000 == (z / 1000.0).Floor
  {
    var q := (z / 1000.0).Floor;
    assert q * 1000 <= z.Floor < q * 1000 + 1000;
  }

  lemma FloorOverHourMillis(z: real)
    requires z >= 0.0
    ensures z.Floor / 3600000 == (z / 3600000.0).Floor
  {
    var q := (z / 3600000.0).Floor;
    assert q * 3600000 <= z.Floor < q * 3600000 + 3600000;
  }

  lemma MixedRadix(q: nat)
    ensures (q / 3600) * 3600 + ((q / 60) % 60) * 60 + q % 60 == q
  {
    assert q / 3600 == (q / 60) / 60;
  }

  /**
   * `ParseDegreesToDMSFormat`: the sign is dropped, the angle is rounded to the
   * millisecond of a degree-hour, and the whole part and its sexagesimal fractions are kept.
   */
  function ParseDegreesToDMSFormat(x: real): (r: Result<LatLonParsed, Failure>)
    ensures r.Err? <==> RoundedMilliseconds(RealAbs(x)) > MaxTimeSpanMilliseconds as real
    ensures r.Ok? ==> 0 <= r.value.minutes < 60 && 0 <= r.value.seconds < 60
    ensures r.Ok? ==> r.value.degrees == (RealAbs(x) + 1.0 / 7200000.0).Floor
    ensures r.Ok? ==>
      r.value.degrees * 3600 + r.value.minutes * 60 + r.value.seconds
        == (RealAbs(x) * 3600.0 + 0.0005).Floor
  {
    var millis := RoundedMilliseconds(RealAbs(x));
    if millis > MaxTimeSpanMilliseconds as real then Err(Overflow)
    else
      var ms := millis.Floor;
      FloorOverHourMillis(millis);
      FloorOverThousand(millis);
      assert ms / 60000 == (ms / 1000) / 60;
      assert ms / 3600000 == (ms / 1000) / 3600;
      MixedRadix(ms / 1000);
      Ok(LatLonParsed(ms / 3600000, (ms / 60000) % 60, (ms / 1000) % 60))
  }

  /** The conversion does not see the sign of the angle. */
  lemma DmsIgnoresSign(x: real)
    ensures ParseDegreesToDMSFormat(x) == ParseDegreesToDMSFormat(-x)
  {
  }

  // ---------------------------------------------------------------------------
  // Enum and text mappers
  // ---------------------------------------------------------------------------

  /** `VesselSituations`; `Other` is any value without a name in the switch. */
  datatype VesselSituation =
    | PreLaunch | Landed | Splashed | Flying | SubOrbital | Orbiting | Escaping | Other(code: int)

  /** `SituationToString`. */
  function SituationToString(s: VesselSituation): (r: string)
    ensures r == "UNKNOWN" <==> s.Other?
  {
    match s
    case PreLaunch => "Pre-Launch"
    case Landed => "Landed"
    case Splashed => "Splashed down"
    case Flying => "Flying"
    case SubOrbital => "Suborbital"
    case Orbiting => "Orbiting"
    case Escaping => "Escaping"
    case Other(_) => "UNKNOWN"
  }

  /** The reading of a situation label back into its situation. */
  function SituationFromString(r: string): Option<VesselSituation>
  {
    if r == "Pre-Launch" then Some(PreLaunch)
    else if r == "Landed" then Some(VesselSituation.Landed)
    else if r == "Splashed down" then Some(VesselSituation.Splashed)
    else if r == "Flying" then Some(Flying)
    else if r == "Suborbital" then Some(SubOrbital)
    else if r == "Orbiting" then Some(Orbiting)
    else if r == "Escaping" then Some(Escaping)
    else Option.None
  }

  /** Every named situation has its own label. */
  lemma SituationLabelsDistinct(s: VesselSituation)
    requires !s.Other?
    ensures SituationFromString(SituationToString(s)) == Some(s)
  {
  }

  /** `ScienceSitutation`; `Other` is any value without a name in the switch. */
  datatype ScienceSituation =
    | None | HighOrbit | LowOrbit | Atmosphere | Splashed | Landed | Other(code: int)

  /** `ScienceSituationToString`. */
  function ScienceSituationToString(s: ScienceSituation): (r: string)
    ensures r == "UNKNOWN" <==> s.Other?
  {
    match s
    case None => "None"
    case HighOrbit => "High Orbit"
    case LowOrbit => "Low Orbit"
    case Atmosphere => "Atmosphere"
    case Splashed => "Splashed"
    case Landed => "Landed"
    case Other(_) => "UNKNOWN"
  }

  /** The reading of a science-situation label back into its situation. */
  function ScienceSituationFromString(r: string): Option<ScienceSituation>
  {
    if r == "None" then Some(ScienceSituation.None)
    else if r == "High Orbit" then Some(HighOrbit)
    else if r == "Low Orbit" then Some(LowOrbit)
    else if r == "Atmosphere" then Some(Atmosphere)
    else if r == "Splashed" then Some(ScienceSituation.Splashed)
    else if r == "Landed" then Some(ScienceSituation.Landed)
    else Option.None
  }

  lemma ScienceSituationLabelsDistinct(s: ScienceSituation)
    requires !s.Other?
    ensures ScienceSituationFromString(ScienceSituationToString(s)) == Some(s)
  {
  }

  /**
   * `ExperimentStateToString` on the integer value of the `ScienceActionGroupState`
   * flags: 1 (un-scored) and 3 (un-scored, also on EVA) both read "Available!".
   */
  function ExperimentStateToString(state: int): (r: string)
    ensures state == 0 ==> r == "Nothing new"
    ensures state == 2 ==> r == "EVA Available!"
    ensures state == 4 ==> r == "In progress"
    ensures r == "Available!" <==> state == 1 || state == 3
    ensures r == "UNKNOWN" <==> !(0 <= state <= 4)
  {
    if state == 0 then "Nothing new"
    else if state == 1 then "Available!"
    else if state == 2 then "EVA Available!"
    else if state == 3 then "Available!"
    else if state == 4 then "In progress"
    else "UNKNOWN"
  }

  /**
   * The five known states are told apart by their labels, except that state 3 (both
   * kinds available) shares "Available!" with state 1.
   */
  lemma ExperimentLabelsDistinct(a: int, b: int)
    requires 0 <= a <= 4 && 0 <= b <= 4
    ensures ExperimentStateToString(a) == ExperimentStateToString(b)
      <==> a == b || (a in {1, 3} && b in {1, 3})
  {
  }

  /** One character of the biome text: lower-cased, `_` read as a space. */
  function BiomeChar(c: char): char
  {
    if c == '_' then ' ' else ToLower(c)
  }

  /**
   * `BiomeToString` on the name of the biome type: lower-case it, turn every `_`
   * into a space, and upper-case the first character only. An empty name makes
   * `Substring(0, 1)` throw, so it is excluded.
   */
  function BiomeToString(typeName: string): (r: string)
    requires |typeName| > 0
    ensures |r| == |typeName|
    ensures r[0] == ToUpper(BiomeChar(typeName[0]))
    ensures forall i :: 1 <= i < |r| ==> r[i] == BiomeChar(typeName[i])
    ensures forall i :: 0 <= i < |r| ==> r[i] != '_'
    ensures forall i :: 1 <= i < |r| ==> !IsUpperAscii(r[i])
    ensures !IsLowerAscii(r[0])
  {
    var lowered := seq(|typeName|, i requires 0 <= i < |typeName| => BiomeChar(typeName[i]));
    [ToUpper(lowered[0])] + lowered[1..]
  }

  /** Formatting a biome label again changes nothing. */
  lemma BiomeToStringIdempotent(typeName: string)
    requires |typeName| > 0
    ensures BiomeToString(BiomeToString(typeName)) == BiomeToString(typeName)
  {
    var r := BiomeToString(typeName);
    var c := BiomeChar(typeName[0]);
    assert ToUpper(BiomeChar(ToUpper(c))) == ToUpper(c);
  }

  /**
   * `string.Replace(p, "", StringComparison.OrdinalIgnoreCase)`: scan left to right,
   * drop each match and continue after it.
   */
  function RemoveAllIgnoringCase(s: string, p: string): (r: string)
    requires |p| > 0
    ensures |r| <= |s|
    decreases |s|
  {
    if |s| < |p| then s
    else if MatchesAt(s, p, 0) then RemoveAllIgnoringCase(s[|p|..], p)
    else [s[0]] + RemoveAllIgnoringCase(s[1..], p)
  }

  /** A string with no match is left as it is; one with a match gets strictly shorter. */
  lemma {:induction false} RemoveAllChangesIffContains(s: string, p: string)
    requires |p| > 0
    ensures !ContainsIgnoringCase(s, p) ==> RemoveAllIgnoringCase(s, p) == s
    ensures ContainsIgnoringCase(s, p) ==> |RemoveAllIgnoringCase(s, p)| < |s|
  {
    if |s| < |p| {
    } else if MatchesAt(s, p, 0) {
    } else {
      var t := s[1..];
      if ContainsIgnoringCase(t, p) {
        var k :| 0 <= k <= |t| && MatchesAt(t, p, k);
        MatchesAtDrop(s, p, 1, k);
      }
      if ContainsIgnoringCase(s, p) {
        var k :| 0 <= k <= |s| && MatchesAt(s, p, k);
        assert k != 0;
        MatchesAtDrop(s, p, 1, k - 1);
      }
      RemoveAllChangesIffContains(t, p);
      assert s == [s[0]] + t;
    }
  }

  /** Dropping a prefix of length `i` shifts every match `i` places to the left. */
  lemma MatchesAtDrop(s: string, p: string, i: nat, j: nat)
    requires i <= |s|
    ensures MatchesAt(s[i..], p, j) <==> MatchesAt(s, p, i + j)
  {
    if i + j <= |s| - |p| {
      assert s[i..][j..j + |p|] == s[i + j..i + j + |p|];
    }
  }

  /** A match at the start is dropped and the scan resumes after it. */
  lemma RemoveAllDropsLeadingMatch(s: string, p: string)
    requires |p| > 0 && MatchesAt(s, p, 0)
    ensures RemoveAllIgnoringCase(s, p) == RemoveAllIgnoringCase(s[|p|..], p)
  {
  }

  /** Without a match at the start, the first character is kept and the scan moves on. */
  lemma RemoveAllKeepsUnmatchedHead(s: string, p: string)
    requires |p| > 0 && |s| >= |p| && !MatchesAt(s, p, 0)
    ensures RemoveAllIgnoringCase(s, p) == [s[0]] + RemoveAllIgnoringCase(s[1..], p)
  {
  }

  /** No match of `p` in `s` starts before offset `k`. */
  predicate NoMatchBefore(s: string, p: string, k: int)
  {
    forall j :: 0 <= j < k ==> !MatchesAt(s, p, j)
  }

  /** Where no match starts before offset `i`, the scan copies `s[..i]` unchanged. */
  lemma {:induction false} RemoveAllKeepsUnmatchedPrefix(s: string, p: string, i: nat)
    requires |p| > 0 && i + |p| <= |s|
    requires NoMatchBefore(s, p, i)
    ensures RemoveAllIgnoringCase(s, p) == s[..i] + RemoveAllIgnoringCase(s[i..], p)
    decreases i
  {
    if i > 0 {
      RemoveAllKeepsUnmatchedPrefix(s, p, i - 1);
      assert !MatchesAt(s, p, i - 1);
      MatchesAtDrop(s, p, i - 1, 0);
      RemoveAllKeepsUnmatchedHead(s[i - 1..], p);
      assert s[i - 1..][1..] == s[i..];
      AppendHead(s, i, RemoveAllIgnoringCase(s, p), RemoveAllIgnoringCase(s[i - 1..], p),
        RemoveAllIgnoringCase(s[i..], p));
    }
  }

  /** Sequence bookkeeping for one step of `RemoveAllKeepsUnmatchedPrefix`. */
  lemma AppendHead(s: string, i: nat, whole: string, tail: string, rest: string)
    requires 0 < i <= |s|
    requires whole == s[..i - 1] + tail
    requires tail == [s[i - 1]] + rest
    ensures whole == s[..i] + rest
  {
    assert s[..i - 1] + [s[i - 1]] == s[..i];
  }

  /**
   * The scan keeps everything before the leftmost match, drops that match, and carries
   * on after it: no character before the match is lost and none of the match survives.
   */
  lemma RemoveAllAtFirstMatch(s: string, p: string, k: nat)
    requires |p| > 0
    requires MatchesAt(s, p, k)
    requires NoMatchBefore(s, p, k)
    ensures RemoveAllIgnoringCase(s, p) == s[..k] + RemoveAllIgnoringCase(s[k + |p|..], p)
  {
    RemoveAllKeepsUnmatchedPrefix(s, p, k);
    MatchesAtDrop(s, p, k, 0);
    RemoveAllDropsLeadingMatch(s[k..], p);
    assert s[k..][|p|..] == s[k + |p|..];
  }

  /**
   * `ScienceRegionToString`: remove every ignore-case occurrence of the body name from
   * the region name. An empty body name makes `Replace` throw, so it is excluded.
   */
  function ScienceRegionToString(region: string, body: string): (r: string)
    requires |body| > 0
    ensures r == region <==> !ContainsIgnoringCase(region, body)
    ensures r == RemoveAllIgnoringCase(region, body)
  {
    RemoveAllChangesIffContains(region, body);
    if ContainsIgnoringCase(region, body) then RemoveAllIgnoringCase(region, body) else region
  }

  // ---------------------------------------------------------------------------
  // Loading a saved layout
  // ---------------------------------------------------------------------------

  /**
   * A loaded layout replaces the current one only when it holds a MainGui window whose
   * layout version is at least the current one.
   */
  predicate LayoutAccepted(loaded: Option<seq<Windows.Window>>)
    reads if loaded.Some? then set w | w in loaded.value else {}
  {
    && loaded.Some?
    && Managers.FirstMainGui(loaded.value).Some?
    && Managers.FirstMainGui(loaded.value).value.layoutVersion >= Windows.CurrentLayoutVersion
  }

  /**
   * `LoadLayout`. `loaded` is the deserialized file contents, `None` when the file is
   * missing or holds `null`. A missing MainGui window throws inside the `try` and is
   * swallowed; so is an old version. An accepted layout becomes the window list as is.
   */
  method LoadLayout(manager: Managers.Manager, loaded: Option<seq<Windows.Window>>)
    modifies manager
    ensures manager.windows == (if LayoutAccepted(loaded) then loaded.value else old(manager.windows))
    ensures manager.entries == old(manager.entries)
    ensures manager.timeOfLastStageInfoUpdate == old(manager.timeOfLastStageInfoUpdate)
  {
    if loaded.None? {
      return;
    }
    var mainGui := Managers.FirstMainGui(loaded.value);
    if mainGui.None? {
      return;
    }
    if mainGui.value.layoutVersion < Windows.CurrentLayoutVersion {
      return;
    }
    manager.windows := loaded.value;
  }

  /** A layout saved from the default layout is accepted when it is loaded back. */
  lemma DefaultLayoutAccepted(ws: seq<Windows.Window>, es: seq<Windows.Entry>)
    requires Managers.IsDefaultLayout(ws, es)
    ensures LayoutAccepted(Some(ws))
  {
    assert Managers.BuiltFrom(ws[0], Managers.DefaultWindowSpecs[0], es);
    assert Managers.FirstMainGui(ws) == Some(ws[0]);
  }
}
