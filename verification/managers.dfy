/**
 * `Manager`: owns the window list and the entry list, builds the default layout,
 * creates custom windows and decides which windows refresh on a flight tick.
 */
module Managers {
  import opened Wrappers
  import opened Text
  import opened Windows

  // ---------------------------------------------------------------------------
  // The default layout
  // ---------------------------------------------------------------------------

  /** Where a default window takes its entries from. */
  datatype EntrySource =
    | NoEntries                      // MainGui and Settings hold no entries
    | Defaults(category: Category)   // the default entries of one category
    | ByType(typeNames: seq<string>) // the first entry of each named class

  /** The fields `InitializeWindows` sets on one window. */
  datatype WindowSpec = WindowSpec(
    kind: WindowKind, mainWindow: MainWindow, name: string, abbreviation: string,
    description: string, isEditorActive: bool, isFlightActive: bool, source: EntrySource)

  /** The classes of the "For Science!" window's entries, in order. */
  const ScienceEntryTypes: seq<string> :=
    ["Body", "ScienceSituationEntry", "ScienceRegion", "ScienceExperimentState",
     "AvailableSciencePoints", "BodyAtmosphereMaxAltitude", "BodyLowOrbitMaxAltitude",
     "BodyHighOrbitMaxAltitude"]

  /** The eleven windows of the default layout, in list order. */
  const DefaultWindowSpecs: seq<WindowSpec> := [
    WindowSpec(MainGuiWindow, MainWindow.MainGui, "", "", "", false, false, NoEntries),
    WindowSpec(SettingsWindow, MainWindow.Settings, "", "", "", false, false, NoEntries),
    WindowSpec(EntryWindow, MainWindow.Vessel, "Vessel", "VES", "Vessel entries", false, true,
               Defaults(Category.Vessel)),
    WindowSpec(EntryWindow, MainWindow.Orbital, "Orbital", "ORB", "Orbital entries", false, true,
               Defaults(Category.Orbital)),
    WindowSpec(EntryWindow, MainWindow.Surface, "Surface", "SUR", "Surface entries", false, true,
               Defaults(Category.Surface)),
    WindowSpec(EntryWindow, MainWindow.Flight, "Flight", "FLT", "Flight entries", false, false,
               Defaults(Category.Flight)),
    WindowSpec(TargetWindow, MainWindow.Target, "Target", "TGT", "Flight entries", false, false,
               Defaults(Category.Target)),
    WindowSpec(ManeuverWindow, MainWindow.Maneuver, "Maneuver", "MAN", "Maneuver entries", false, false,
               Defaults(Category.Maneuver)),
    WindowSpec(StageWindow, MainWindow.Stage, "Stage", "STG", "Stage entries", false, false,
               Defaults(Category.Stage)),
    WindowSpec(StageInfoOabWindow, MainWindow.StageInfoOAB, "", "", "", true, false,
               Defaults(Category.OAB)),
    WindowSpec(EntryWindow, MainWindow.None, "For Science!", "SCI", "For Science entries", false, false,
               ByType(ScienceEntryTypes))
  ]

  /** `Entries.Where(e => e.Category == c && e.IsDefault)`. */
  function DefaultsOf(es: seq<Entry>, c: Category): (r: seq<Entry>)
    ensures |r| <= |es|
    ensures forall i :: 0 <= i < |r| ==> r[i] in es && r[i].category == c && r[i].isDefault
    ensures forall i :: 0 <= i < |es| && es[i].category == c && es[i].isDefault ==> es[i] in r
  {
    if es == [] then []
    else (if es[0].category == c && es[0].isDefault then [es[0]] else []) + DefaultsOf(es[1..], c)
  }

  /** The filter keeps master-list order: filtering a concatenation concatenates the filtered parts. */
  lemma {:induction false} DefaultsOfAppend(a: seq<Entry>, b: seq<Entry>, c: Category)
    ensures DefaultsOf(a + b, c) == DefaultsOf(a, c) + DefaultsOf(b, c)
  {
    if a == [] {
      assert a + b == b;
    } else {
      assert (a + b)[0] == a[0];
      assert (a + b)[1..] == a[1..] + b;
      DefaultsOfAppend(a[1..], b, c);
    }
  }

  /** The index of the first entry of class `t`, or `|es|` when there is none. */
  function FirstIndexOfType(es: seq<Entry>, t: string): (k: nat)
    ensures k <= |es|
    ensures k < |es| ==> es[k].typeName == t
    ensures forall j :: 0 <= j < k ==> es[j].typeName != t
  {
    if es == [] then 0
    else if es[0].typeName == t then 0
    else 1 + FirstIndexOfType(es[1..], t)
  }

  /** `Entries.Find(e => e is T)`: the first entry of the class, or null. */
  function FindByType(es: seq<Entry>, t: string): (r: Entry?)
    ensures r == null <==> forall j :: 0 <= j < |es| ==> es[j].typeName != t
    ensures r != null ==> r.typeName == t && r == es[FirstIndexOfType(es, t)]
  {
    var k := FirstIndexOfType(es, t);
    if k < |es| then es[k] else null
  }

  function FindAllByType(es: seq<Entry>, ts: seq<string>): (r: seq<Entry?>)
    ensures |r| == |ts|
    ensures forall i :: 0 <= i < |ts| ==> r[i] == FindByType(es, ts[i])
  {
    if ts == [] then [] else [FindByType(es, ts[0])] + FindAllByType(es, ts[1..])
  }

  /** The entries a default window starts with. */
  function EntriesFrom(source: EntrySource, es: seq<Entry>): seq<Entry?>
  {
    match source
    case NoEntries => []
    case Defaults(c) => DefaultsOf(es, c)
    case ByType(ts) => FindAllByType(es, ts)
  }

  /** Window `w` is the default window described by `spec`. */
  predicate BuiltFrom(w: Window, spec: WindowSpec, es: seq<Entry>)
    reads w
  {
    && w.kind == spec.kind && w.mainWindow == spec.mainWindow
    && w.name == spec.name && w.abbreviation == spec.abbreviation
    && w.description == spec.description
    && w.isEditorActive == spec.isEditorActive && w.isFlightActive == spec.isFlightActive
    && !w.isMapActive && !w.isFlightPoppedOut && !w.isLocked
    && w.layoutVersion == (if spec.kind == MainGuiWindow then CurrentLayoutVersion else 0)
    && w.entries == EntriesFrom(spec.source, es)
  }

  /** `ws` is the default layout built over the master entry list `es`. */
  predicate IsDefaultLayout(ws: seq<Window>, es: seq<Entry>)
    reads ws
  {
    |ws| == |DefaultWindowSpecs| && forall i :: 0 <= i < |ws| ==> BuiltFrom(ws[i], DefaultWindowSpecs[i], es)
  }

  /** No window occurs twice. */
  predicate Distinct(ws: seq<Window>)
  {
    forall i, j :: 0 <= i < j < |ws| ==> ws[i] != ws[j]
  }

  /** The `MainWindow` tag of each default window, in list order. */
  lemma DefaultLayoutTags(ws: seq<Window>, es: seq<Entry>)
    requires IsDefaultLayout(ws, es)
    ensures |ws| == 11
    ensures [ws[0].mainWindow, ws[1].mainWindow, ws[2].mainWindow, ws[3].mainWindow, ws[4].mainWindow,
             ws[5].mainWindow, ws[6].mainWindow, ws[7].mainWindow, ws[8].mainWindow, ws[9].mainWindow,
             ws[10].mainWindow]
         == [MainWindow.MainGui, MainWindow.Settings, MainWindow.Vessel, MainWindow.Orbital,
             MainWindow.Surface, MainWindow.Flight, MainWindow.Target, MainWindow.Maneuver,
             MainWindow.Stage, MainWindow.StageInfoOAB, MainWindow.None]
  {
    forall i | 0 <= i < 11
      ensures ws[i].mainWindow == DefaultWindowSpecs[i].mainWindow
    {
      assert BuiltFrom(ws[i], DefaultWindowSpecs[i], es);
    }
  }

  lemma EditableOfCons(w: Window, rest: seq<Window>)
    ensures EditableOf([w] + rest) == (if w.IsEditable() then [w] else []) + EditableOf(rest)
  {
    assert ([w] + rest)[1..] == rest;
  }

  lemma EditableOfElevenWindows(ws: seq<Window>)
    requires |ws| == 11
    requires !ws[0].IsEditable() && !ws[1].IsEditable() && ws[2].IsEditable() && ws[3].IsEditable()
    requires ws[4].IsEditable() && ws[5].IsEditable() && ws[6].IsEditable() && ws[7].IsEditable()
    requires !ws[8].IsEditable() && !ws[9].IsEditable() && ws[10].IsEditable()
    ensures EditableOf(ws) == [ws[2], ws[3], ws[4], ws[5], ws[6], ws[7], ws[10]]
  {
    var tail := [ws[10]];
    EditableOfStep(ws, 10);
    assert EditableOf(ws[10..]) == tail;
    EditableOfStep(ws, 9);
    EditableOfStep(ws, 8);
    assert EditableOf(ws[8..]) == tail;
    EditableOfStep(ws, 7);
    assert EditableOf(ws[7..]) == [ws[7]] + tail;
    EditableOfStep(ws, 6);
    assert EditableOf(ws[6..]) == [ws[6], ws[7]] + tail;
    EditableOfStep(ws, 5);
    assert EditableOf(ws[5..]) == [ws[5], ws[6], ws[7]] + tail;
    EditableOfStep(ws, 4);
    assert EditableOf(ws[4..]) == [ws[4], ws[5], ws[6], ws[7]] + tail;
    EditableOfStep(ws, 3);
    assert EditableOf(ws[3..]) == [ws[3], ws[4], ws[5], ws[6], ws[7]] + tail;
    EditableOfStep(ws, 2);
    assert EditableOf(ws[2..]) == [ws[2], ws[3], ws[4], ws[5], ws[6], ws[7]] + tail;
    EditableOfStep(ws, 1);
    EditableOfStep(ws, 0);
    assert ws[0..] == ws;
  }

  /** The editable windows from position i on: window i if editable, then those after it. */
  lemma EditableOfStep(ws: seq<Window>, i: nat)
    requires i < |ws|
    ensures EditableOf(ws[i..]) == (if ws[i].IsEditable() then [ws[i]] else []) + EditableOf(ws[i + 1..])
  {
    assert ws[i..] == [ws[i]] + ws[i + 1..];
    EditableOfCons(ws[i], ws[i + 1..]);
  }

  /** In the default layout seven windows can be edited: the six entry sections and "For Science!". */
  lemma DefaultLayoutEditable(ws: seq<Window>, es: seq<Entry>)
    requires IsDefaultLayout(ws, es)
    ensures EditableOf(ws) == [ws[2], ws[3], ws[4], ws[5], ws[6], ws[7], ws[10]]
  {
    DefaultLayoutTags(ws, es);
    EditableOfElevenWindows(ws);
  }

  /** In the default layout only "For Science!" can be deleted. */
  lemma DefaultLayoutDeletable(ws: seq<Window>, es: seq<Entry>, i: nat)
    requires IsDefaultLayout(ws, es) && i < |ws|
    ensures ws[i].IsDeletable() <==> i == 10
  {
    assert BuiltFrom(ws[i], DefaultWindowSpecs[i], es);
  }

  // ---------------------------------------------------------------------------
  // Custom window names
  // ---------------------------------------------------------------------------

  /** `"Custom" + n`. */
  function CustomName(n: nat): string
  {
    "Custom" + NatToString(n)
  }

  lemma CustomNameInjective(a: nat, b: nat)
    requires CustomName(a) == CustomName(b)
    ensures a == b
  {
    assert CustomName(a)[6..] == NatToString(a);
    assert CustomName(b)[6..] == NatToString(b);
    NatToStringInjective(a, b);
  }

  /** The names of the windows, in order. */
  function NamesOf(ws: seq<Window>): (names: seq<string>)
    reads ws
    ensures |names| == |ws|
    ensures forall i :: 0 <= i < |ws| ==> names[i] == ws[i].name
  {
    if ws == [] then [] else [ws[0].name] + NamesOf(ws[1..])
  }

  /** If "Custom1" to "Custom<n>" all occur among the names, there are at least n names. */
  lemma {:induction false} UsedIdsBound(names: seq<string>, n: nat)
    requires forall i :: 1 <= i <= n ==> CustomName(i) in names
    ensures n <= |names|
    decreases n
  {
    if n > 0 {
      var rest := RemoveFirst(names, CustomName(n));
      forall i | 1 <= i <= n - 1
        ensures CustomName(i) in rest
      {
        if CustomName(i) == CustomName(n) {
          CustomNameInjective(i, n);
        }
      }
      UsedIdsBound(rest, n - 1);
    }
  }

  /**
   * The name counter as written: start at 1 and step it once for every name, in list
   * order, that equals "Custom" + the counter at that moment.
   */
  function ScanId(names: seq<string>, n: nat): nat
  {
    if names == [] then n
    else ScanId(names[1..], if names[0] == CustomName(n) then n + 1 else n)
  }

  /** The scan only steps past a counter value it has seen used. */
  lemma {:induction false} ScanIdSkipsOnlyUsed(names: seq<string>, n: nat)
    ensures ScanId(names, n) >= n
    ensures forall i :: n <= i < ScanId(names, n) ==> CustomName(i) in names
  {
    if names != [] {
      var m := if names[0] == CustomName(n) then n + 1 else n;
      ScanIdSkipsOnlyUsed(names[1..], m);
      forall i | n <= i < ScanId(names, n)
        ensures CustomName(i) in names
      {
        if i >= m {
          assert CustomName(i) in names[1..];
        }
      }
    }
  }

  /** The counter loop of `CreateCustomWindow`, exactly as written. */
  method CustomNameIdAsWritten(editable: seq<Window>) returns (nameId: nat)
    ensures nameId == ScanId(NamesOf(editable), 1)
  {
    var names := NamesOf(editable);
    nameId := 1;
    var i := 0;
    while i < |editable|
      invariant 0 <= i <= |editable|
      invariant ScanId(names[i..], nameId) == ScanId(names, 1)
    {
      assert names[i..][1..] == names[i + 1..];
      if editable[i].name == CustomName(nameId) {
        nameId := nameId + 1;
      }
      i := i + 1;
    }
  }

  /**
   * After creating Custom1 and Custom2 and deleting Custom1, the next new window is
   * named Custom1 and appended after Custom2; the window after that is named Custom2
   * again, a name already in use.
   */
  lemma AsWrittenRepeatsName()
    ensures ScanId(["Custom2", "Custom1"], 1) == 2
    ensures CustomName(2) in ["Custom2", "Custom1"]
  {
    assert NatToString(1) == "1";
    assert NatToString(2) == "2";
    assert CustomName(1) == "Custom1";
    assert CustomName(2) == "Custom2";
    assert ["Custom2", "Custom1"][1..] == ["Custom1"];
    assert ScanId(["Custom2", "Custom1"], 1) == ScanId(["Custom1"], 1);
    assert ScanId(["Custom1"], 1) == ScanId([], 2);
  }

  /** The smallest positive n for which no window is named "Custom" + n. */
  method FirstUnusedCustomId(editable: seq<Window>) returns (nameId: nat)
    ensures nameId >= 1
    ensures CustomName(nameId) !in NamesOf(editable)
    ensures forall i :: 1 <= i < nameId ==> CustomName(i) in NamesOf(editable)
  {
    var names := NamesOf(editable);
    nameId := 1;
    while CustomName(nameId) in names
      invariant nameId >= 1
      invariant forall i :: 1 <= i < nameId ==> CustomName(i) in names
      decreases |names| + 1 - nameId
    {
      UsedIdsBound(names, nameId);
      nameId := nameId + 1;
    }
  }

  /** The abbreviation of a custom window: "Cu" + n, "C" + n, or plain n by digit count. */
  function CustomAbbreviation(n: nat): (a: string)
    ensures n < 10 ==> a == "Cu" + NatToString(n)
    ensures 10 <= n < 100 ==> a == "C" + NatToString(n)
    ensures n >= 100 ==> a == NatToString(n)
    ensures |a| >= 3
  {
    NatToStringLength(n);
    var digits := NatToString(n);
    if |digits| == 1 then "Cu" + digits
    else if |digits| == 2 then "C" + digits
    else digits
  }

  /** The first two characters of an abbreviation tell the digit count of its number. */
  lemma CustomAbbreviationShape(n: nat)
    ensures CustomAbbreviation(n)[0] == 'C' <==> n < 100
    ensures CustomAbbreviation(n)[1] == 'u' <==> n < 10
  {
    NatToStringLength(n);
    var x, d := CustomAbbreviation(n), NatToString(n);
    if n < 10 {
      assert x[0] == 'C' && x[1] == 'u';
    } else if n < 100 {
      assert x[0] == 'C' && x[1] == d[0];
    } else {
      assert x[0] == d[0] && x[1] == d[1];
    }
  }

  /** Distinct numbers get distinct abbreviations. */
  lemma CustomAbbreviationInjective(a: nat, b: nat)
    requires CustomAbbreviation(a) == CustomAbbreviation(b)
    ensures a == b
  {
    CustomAbbreviationShape(a);
    CustomAbbreviationShape(b);
    var x := CustomAbbreviation(a);
    if a < 10 {
      assert x[2..] == NatToString(a) && x[2..] == NatToString(b);
    } else if a < 100 {
      assert x[1..] == NatToString(a) && x[1..] == NatToString(b);
    }
    NatToStringInjective(a, b);
  }

  // ---------------------------------------------------------------------------
  // Flight-tick refresh
  // ---------------------------------------------------------------------------

  /** The host game states the update distinguishes. */
  datatype GameState = FlightView | Map3DView | OtherView

  /** `Windows.OfType<MainGuiWindow>().FirstOrDefault()`. */
  function FirstMainGui(ws: seq<Window>): (r: Option<Window>)
    ensures r.Some? ==> r.value in ws && r.value.kind == MainGuiWindow
    ensures r.None? <==> forall i :: 0 <= i < |ws| ==> ws[i].kind != MainGuiWindow
  {
    if ws == [] then Option.None
    else if ws[0].kind == MainGuiWindow then Some(ws[0])
    else FirstMainGui(ws[1..])
  }

  predicate IsActiveStageWindow(w: Window)
    reads w
  {
    w.isFlightActive && w.kind == StageWindow
  }

  predicate ContainsStageWindow(ws: seq<Window>)
  {
    exists i :: 0 <= i < |ws| && ws[i].kind == StageWindow
  }

  predicate ContainsActiveStageWindow(ws: seq<Window>)
    reads ws
  {
    exists i :: 0 <= i < |ws| && IsActiveStageWindow(ws[i])
  }

  lemma ContainsStageWindowCons(w: Window, rest: seq<Window>)
    ensures ContainsStageWindow([w] + rest) <==> w.kind == StageWindow || ContainsStageWindow(rest)
  {
    if ContainsStageWindow(rest) {
      var i :| 0 <= i < |rest| && rest[i].kind == StageWindow;
      assert ([w] + rest)[i + 1] == rest[i];
    }
    if ContainsStageWindow([w] + rest) {
      var i :| 0 <= i < |[w] + rest| && ([w] + rest)[i].kind == StageWindow;
      if i > 0 {
        assert rest[i - 1] == ([w] + rest)[i];
      }
    }
    assert ([w] + rest)[0] == w;
  }

  lemma ContainsActiveStageWindowTail(ws: seq<Window>)
    requires ws != []
    ensures ContainsActiveStageWindow(ws) <==> IsActiveStageWindow(ws[0]) || ContainsActiveStageWindow(ws[1..])
  {
    if ContainsActiveStageWindow(ws[1..]) {
      var i :| 0 <= i < |ws[1..]| && IsActiveStageWindow(ws[1..][i]);
      assert ws[i + 1] == ws[1..][i];
    }
    if ContainsActiveStageWindow(ws) {
      var i :| 0 <= i < |ws| && IsActiveStageWindow(ws[i]);
      if i > 0 {
        assert ws[1..][i - 1] == ws[i];
      }
    }
  }

  /**
   * One pass over the windows: every flight-active entry window refreshes, except that a
   * Stage window refreshes (and moves the timestamp to `now`) only when more than
   * `threshold` seconds have passed since the timestamp. Returns the refreshed windows
   * in order and the new timestamp.
   */
  function RefreshPass(ws: seq<Window>, last: real, now: real, threshold: real): (r: (seq<Window>, real))
    reads ws
  {
    if ws == [] then ([], last)
    else
      var w := ws[0];
      if w.isFlightActive && IsEntryWindowKind(w.kind) && (w.kind != StageWindow || now - last > threshold) then
        var rest := RefreshPass(ws[1..], if w.kind == StageWindow then now else last, now, threshold);
        ([w] + rest.0, rest.1)
      else
        RefreshPass(ws[1..], last, now, threshold)
  }

  /**
   * What a pass does: it refreshes only flight-active entry windows; it refreshes every
   * such window that is not a Stage window; some Stage window refreshes exactly when an
   * active one exists and the interval has elapsed; and the timestamp moves to `now`
   * exactly when a Stage window refreshed.
   */
  lemma {:induction false} RefreshPassSpec(ws: seq<Window>, last: real, now: real, threshold: real)
    ensures var r := RefreshPass(ws, last, now, threshold);
      && (forall i :: 0 <= i < |r.0| ==> r.0[i] in ws && r.0[i].isFlightActive && IsEntryWindowKind(r.0[i].kind))
      && (forall i :: 0 <= i < |ws| ==>
            (ws[i].isFlightActive && IsEntryWindowKind(ws[i].kind) && ws[i].kind != StageWindow ==> ws[i] in r.0))
      && r.1 == (if ContainsStageWindow(r.0) then now else last)
      && (ContainsStageWindow(r.0) <==> ContainsActiveStageWindow(ws) && now - last > threshold)
  {
    if ws != [] {
      var w := ws[0];
      ContainsActiveStageWindowTail(ws);
      if w.isFlightActive && IsEntryWindowKind(w.kind) && (w.kind != StageWindow || now - last > threshold) {
        var last' := if w.kind == StageWindow then now else last;
        RefreshPassSpec(ws[1..], last', now, threshold);
        var rest := RefreshPass(ws[1..], last', now, threshold);
        ContainsStageWindowCons(w, rest.0);
      } else {
        RefreshPassSpec(ws[1..], last, now, threshold);
      }
    }
  }

  /** The pass over the windows from position i on, as the loop sees it. */
  function RefreshPassFrom(ws: seq<Window>, i: nat, last: real, now: real, threshold: real): (seq<Window>, real)
    requires i <= |ws|
    reads ws
    decreases |ws| - i
  {
    if i == |ws| then ([], last)
    else
      var w := ws[i];
      if w.isFlightActive && IsEntryWindowKind(w.kind) && (w.kind != StageWindow || now - last > threshold) then
        var rest := RefreshPassFrom(ws, i + 1, if w.kind == StageWindow then now else last, now, threshold);
        ([w] + rest.0, rest.1)
      else
        RefreshPassFrom(ws, i + 1, last, now, threshold)
  }

  /** The pass from position i is the pass over the windows from i on. */
  lemma {:induction false} RefreshPassFromSuffix(ws: seq<Window>, i: nat, last: real, now: real, threshold: real)
    requires i <= |ws|
    ensures RefreshPassFrom(ws, i, last, now, threshold) == RefreshPass(ws[i..], last, now, threshold)
    decreases |ws| - i
  {
    if i < |ws| {
      assert ws[i..][0] == ws[i] && ws[i..][1..] == ws[i + 1..];
      RefreshPassFromSuffix(ws, i + 1, now, now, threshold);
      RefreshPassFromSuffix(ws, i + 1, last, now, threshold);
    }
  }

  /**
   * The loop of `DoFlightUpdate`: visits the windows in order, refreshing the active entry
   * windows, and a Stage window only when the interval has elapsed since `last`, which it
   * then moves to `now`.
   */
  method RunRefreshPass(ws: seq<Window>, last: real, now: real, threshold: real)
    returns (done: seq<Window>, newLast: real)
    ensures (done, newLast) == RefreshPass(ws, last, now, threshold)
  {
    ghost var full := RefreshPassFrom(ws, 0, last, now, threshold);
    done, newLast := [], last;
    for i := 0 to |ws|
      invariant done + RefreshPassFrom(ws, i, newLast, now, threshold).0 == full.0
      invariant RefreshPassFrom(ws, i, newLast, now, threshold).1 == full.1
    {
      var w := ws[i];
      if w.isFlightActive && IsEntryWindowKind(w.kind) {
        if w.kind == StageWindow {
          if now - newLast > threshold {
            newLast := now;
            done := done + [w];
          }
        } else {
          done := done + [w];
        }
      }
    }
    assert RefreshPassFrom(ws, |ws|, newLast, now, threshold) == ([], newLast);
    assert done + [] == done;
    assert done == full.0 && newLast == full.1;
    RefreshPassFromSuffix(ws, 0, last, now, threshold);
    assert ws[0..] == ws;
    assert full == RefreshPass(ws, last, now, threshold);
  }

  /** The flight update runs in flight or map view, with MainGui active and a vessel present. */
  predicate RefreshAllowed(mainGui: Window, gameState: Option<GameState>, vesselPresent: bool)
    reads mainGui
  {
    gameState.Some? && gameState.value in {FlightView, Map3DView} && mainGui.isFlightActive && vesselPresent
  }

  // ---------------------------------------------------------------------------
  // The manager
  // ---------------------------------------------------------------------------

  /** One `Windows.Add(new ... { ... })` of the default layout. */
  method BuildWindow(spec: WindowSpec, es: seq<Entry>) returns (w: Window)
    ensures fresh(w) && BuiltFrom(w, spec, es)
  {
    w := new Window(spec.kind, spec.mainWindow, spec.name, spec.abbreviation,
                    spec.description, spec.isEditorActive, spec.isFlightActive,
                    EntriesFrom(spec.source, es));
    if spec.kind == MainGuiWindow {
      w.layoutVersion := CurrentLayoutVersion;
    }
  }

  class Manager {
    var windows: seq<Window>
    var entries: seq<Entry>
    /** `_timeOfLastStageInfoUpdate`, in seconds on the clock `now` is read from. */
    var timeOfLastStageInfoUpdate: real

    /**
     * `new Manager()`: the master entry list (built by reflection) and the clock reading
     * at construction are given.
     */
    constructor (allEntries: seq<Entry>, now: real)
      ensures entries == allEntries && timeOfLastStageInfoUpdate == now
      ensures IsDefaultLayout(windows, entries) && Distinct(windows)
      ensures forall i :: 0 <= i < |windows| ==> fresh(windows[i])
    {
      entries := allEntries;
      timeOfLastStageInfoUpdate := now;
      windows := [];
      new;
      InitializeWindows();
    }

    /** Builds the default layout, window by window, over the current entry list. */
    method InitializeWindows()
      modifies this
      ensures entries == old(entries) && timeOfLastStageInfoUpdate == old(timeOfLastStageInfoUpdate)
      ensures IsDefaultLayout(windows, entries) && Distinct(windows)
      ensures forall i :: 0 <= i < |windows| ==> fresh(windows[i])
    {
      windows := [];
      for i := 0 to |DefaultWindowSpecs|
        invariant |windows| == i
        invariant entries == old(entries) && timeOfLastStageInfoUpdate == old(timeOfLastStageInfoUpdate)
        invariant forall j :: 0 <= j < i ==> BuiltFrom(windows[j], DefaultWindowSpecs[j], entries)
        invariant forall j :: 0 <= j < i ==> fresh(windows[j])
        invariant Distinct(windows)
      {
        var w := BuildWindow(DefaultWindowSpecs[i], entries);
        windows := windows + [w];
      }
    }

    /**
     * `CreateCustomWindow`: a new, empty, flight-active custom window, named after the
     * smallest unused custom number, appended to both the window list and the editable
     * list; returns its index in the editable list.
     */
    method CreateCustomWindow(editable: WindowList) returns (index: int)
      modifies this`windows, editable`items
      ensures |windows| == |old(windows)| + 1 && windows[..|old(windows)|] == old(windows)
      ensures editable.items == old(editable.items) + [windows[|windows| - 1]]
      ensures index == |editable.items| - 1
      ensures entries == old(entries) && timeOfLastStageInfoUpdate == old(timeOfLastStageInfoUpdate)
      ensures fresh(windows[|windows| - 1])
      ensures
        var w := windows[|windows| - 1];
        && w.kind == EntryWindow && w.mainWindow == MainWindow.None
        && w.entries == [] && w.description == ""
        && w.isFlightActive && !w.isEditorActive && !w.isMapActive
        && !w.isFlightPoppedOut && !w.isLocked
        && (exists n: nat :: n >= 1 && w.name == CustomName(n) && w.abbreviation == CustomAbbreviation(n)
              && CustomName(n) !in old(NamesOf(editable.items))
              && forall i :: 1 <= i < n ==> CustomName(i) in old(NamesOf(editable.items)))
    {
      var nameId := FirstUnusedCustomId(editable.items);
      var w := new Window(EntryWindow, MainWindow.None, CustomName(nameId), CustomAbbreviation(nameId),
                          "", false, true, []);
      windows := windows + [w];
      editable.items := editable.items + [w];
      index := |editable.items| - 1;
    }

    /**
     * `DoFlightUpdate`. Returns the windows whose data is refreshed on this tick, or the
     * exception when the list holds no MainGui window. `now` is the clock reading and
     * `frequencyMs` the Stage window's refresh interval setting in milliseconds.
     */
    method DoFlightUpdate(gameState: Option<GameState>, vesselPresent: bool, now: real, frequencyMs: int)
      returns (refreshed: Result<seq<Window>, Failure>)
      modifies this
      ensures windows == old(windows) && entries == old(entries)
      ensures FirstMainGui(windows).None? ==>
        refreshed == Err(NullReference) && timeOfLastStageInfoUpdate == old(timeOfLastStageInfoUpdate)
      ensures FirstMainGui(windows).Some? && !RefreshAllowed(FirstMainGui(windows).value, gameState, vesselPresent) ==>
        refreshed == Ok([]) && timeOfLastStageInfoUpdate == old(timeOfLastStageInfoUpdate)
      ensures FirstMainGui(windows).Some? && RefreshAllowed(FirstMainGui(windows).value, gameState, vesselPresent) ==>
        var pass := RefreshPass(windows, old(timeOfLastStageInfoUpdate), now, frequencyMs as real / 1000.0);
        refreshed == Ok(pass.0) && timeOfLastStageInfoUpdate == pass.1
    {
      var mainGui := FirstMainGui(windows);
      if mainGui.None? {
        return Err(NullReference);
      }
      if !(gameState.Some? && gameState.value in {FlightView, Map3DView} && mainGui.value.isFlightActive) {
        return Ok([]);
      }
      if !vesselPresent {
        return Ok([]);
      }
      assert RefreshAllowed(mainGui.value, gameState, vesselPresent);
      var threshold := frequencyMs as real / 1000.0;
      var done, newLast := RunRefreshPass(windows, timeOfLastStageInfoUpdate, now, threshold);
      timeOfLastStageInfoUpdate := newLast;
      refreshed := Ok(done);
    }
  }
}
