/**
 * The immediate-mode interface (`UI`): the section toggles and docked sections of the
 * main window, the entries a section draws, the stage table, the pop-out rule of a
 * section header, and the state of the edit window (selected window, selected
 * category, tooltip, window deletion).
 */
module LegacyUi {
  import opened Wrappers
  import Text
  import Windows
  import Managers
  import StageInfoEntries
  import Utility
  import EditWindows
  import EntryWindows

  // ---------------------------------------------------------------------------
  // Section toggles of the main window
  // ---------------------------------------------------------------------------

  /** The most toggles one row of the main window holds. */
  const TogglesPerRow: nat := 6

  /** The windows that get a toggle: all but the main window and the OAB stage window. */
  function SectionToggles(ws: seq<Windows.Window>): (ts: seq<Windows.Window>)
  {
    if ws == [] then []
    else (if ws[0].mainWindow !in {Windows.MainWindow.MainGui, Windows.MainWindow.StageInfoOAB}
          then [ws[0]] else []) + SectionToggles(ws[1..])
  }

  /** The toggles are exactly the windows other than the main and OAB stage windows. */
  lemma {:induction false} SectionTogglesSpec(ws: seq<Windows.Window>)
    ensures forall w :: w in SectionToggles(ws) <==>
      w in ws && w.mainWindow != Windows.MainWindow.MainGui && w.mainWindow != Windows.MainWindow.StageInfoOAB
    ensures |SectionToggles(ws)| <= |ws|
  {
    if ws != [] {
      SectionTogglesSpec(ws[1..]);
      assert ws == [ws[0]] + ws[1..];
    }
  }

  /** The rows laid end to end. */
  function Flatten<T>(rows: seq<seq<T>>): seq<T>
  {
    if rows == [] then [] else Flatten(rows[..|rows| - 1]) + rows[|rows| - 1]
  }

  /** Opening a new row adds its window at the end. */
  lemma FlattenNewRow<T>(rows: seq<seq<T>>, x: T)
    ensures Flatten(rows + [[x]]) == Flatten(rows) + [x]
  {
    assert (rows + [[x]])[..|rows|] == rows;
  }

  /** Growing the last row adds its window at the end. */
  lemma FlattenGrowLastRow<T>(rows: seq<seq<T>>, x: T)
    requires |rows| >= 1
    ensures Flatten(rows[..|rows| - 1] + [rows[|rows| - 1] + [x]]) == Flatten(rows) + [x]
  {
    var init := rows[..|rows| - 1];
    assert (init + [rows[|rows| - 1] + [x]])[..|rows| - 1] == init;
  }

  /**
   * The shape of the rows after n toggles: full rows of six, then a last row holding the
   * rest (one row, empty, before the first toggle).
   */
  predicate RowsLaidOut<T>(rows: seq<seq<T>>, n: nat)
  {
    && |rows| >= 1
    && (forall r :: 0 <= r < |rows| - 1 ==> |rows[r]| == TogglesPerRow)
    && (n == 0 ==> |rows| == 1 && |rows[0]| == 0)
    && (n > 0 ==> |rows[|rows| - 1]| == (n - 1) % TogglesPerRow + 1 && |rows| == (n - 1) / TogglesPerRow + 1)
  }

  /** Toggle n, a positive multiple of six, opens a new row. */
  lemma RowsLaidOutNewRow<T>(rows: seq<seq<T>>, n: nat, x: T)
    requires RowsLaidOut(rows, n) && n % TogglesPerRow == 0 && n > 0
    ensures RowsLaidOut(rows + [[x]], n + 1)
  {
    assert n / TogglesPerRow == (n - 1) / TogglesPerRow + 1;
  }

  /** Any other toggle joins the last row. */
  lemma RowsLaidOutGrowLastRow<T>(rows: seq<seq<T>>, n: nat, x: T)
    requires RowsLaidOut(rows, n) && !(n % TogglesPerRow == 0 && n > 0)
    ensures RowsLaidOut(rows[..|rows| - 1] + [rows[|rows| - 1] + [x]], n + 1)
  {
    if n > 0 {
      assert n / TogglesPerRow == (n - 1) / TogglesPerRow && n % TogglesPerRow == (n - 1) % TogglesPerRow + 1;
    }
  }

  /**
   * The rows of toggles `FillMainGUI` lays out: every toggled window once, in order, six
   * to a row, and only the last row partly filled. With no toggles there is one empty row.
   */
  method ToggleRows(ws: seq<Windows.Window>) returns (rows: seq<seq<Windows.Window>>)
    ensures Flatten(rows) == SectionToggles(ws)
    ensures |rows| >= 1
    ensures forall r :: 0 <= r < |rows| - 1 ==> |rows[r]| == TogglesPerRow
    ensures 0 < |rows[|rows| - 1]| <= TogglesPerRow || (SectionToggles(ws) == [] && rows == [[]])
    ensures SectionToggles(ws) != [] ==> |rows| == (|SectionToggles(ws)| - 1) / TogglesPerRow + 1
  {
    var toggles := SectionToggles(ws);
    rows := [[]];
    var toggleIndex := -1;
    for i := 0 to |toggles|
      invariant toggleIndex == i - 1
      invariant Flatten(rows) == toggles[..i]
      invariant RowsLaidOut(rows, i)
    {
      assert toggles[..i + 1] == toggles[..i] + [toggles[i]];
      toggleIndex := toggleIndex + 1;
      if toggleIndex % TogglesPerRow == 0 && toggleIndex > 0 {
        FlattenNewRow(rows, toggles[i]);
        RowsLaidOutNewRow(rows, i, toggles[i]);
        rows := rows + [[toggles[i]]];
      } else {
        FlattenGrowLastRow(rows, toggles[i]);
        RowsLaidOutGrowLastRow(rows, i, toggles[i]);
        rows := rows[..|rows| - 1] + [rows[|rows| - 1] + [toggles[i]]];
      }
    }
    assert toggles[..|toggles|] == toggles;
    if toggles == [] {
      assert rows == [[]];
    }
  }

  // ---------------------------------------------------------------------------
  // Sections drawn docked in the main window
  // ---------------------------------------------------------------------------

  /** Whether a window is drawn as a docked section in the "draw all other windows" pass. */
  predicate IsDockedSection(w: Windows.Window, targetExists: bool, maneuverExists: bool)
    reads w
  {
    && w.isFlightActive && !w.isFlightPoppedOut
    && w.mainWindow !in {Windows.MainWindow.Settings, Windows.MainWindow.Stage, Windows.MainWindow.MainGui}
    && (w.mainWindow == Windows.MainWindow.Target ==> targetExists)
    && (w.mainWindow == Windows.MainWindow.Maneuver ==> maneuverExists)
  }

  /** The docked sections, in window order (the target and maneuver checks are host queries). */
  function DockedSections(ws: seq<Windows.Window>, targetExists: bool, maneuverExists: bool)
    : seq<Windows.Window>
    reads ws
  {
    if ws == [] then []
    else (if IsDockedSection(ws[0], targetExists, maneuverExists) then [ws[0]] else [])
         + DockedSections(ws[1..], targetExists, maneuverExists)
  }

  /**
   * A window is drawn docked exactly when it is active and not popped out, is not one of
   * the three windows drawn separately, and is not a target or maneuver window without a
   * target or maneuver; sections keep their order.
   */
  lemma {:induction false} DockedSectionsSpec(ws: seq<Windows.Window>, targetExists: bool, maneuverExists: bool)
    ensures forall w :: w in DockedSections(ws, targetExists, maneuverExists) <==>
      w in ws && IsDockedSection(w, targetExists, maneuverExists)
    ensures |DockedSections(ws, targetExists, maneuverExists)| <= |ws|
  {
    if ws != [] {
      DockedSectionsSpec(ws[1..], targetExists, maneuverExists);
      assert ws == [ws[0]] + ws[1..];
    }
  }

  /** Without a target, no target window is drawn docked; likewise for maneuvers. */
  lemma NoTargetNoTargetSection(ws: seq<Windows.Window>, w: Windows.Window, maneuverExists: bool)
    requires w in DockedSections(ws, false, maneuverExists)
    ensures w.mainWindow != Windows.MainWindow.Target
    ensures w.isFlightActive && !w.isFlightPoppedOut
  {
    DockedSectionsSpec(ws, false, maneuverExists);
  }

  // ---------------------------------------------------------------------------
  // Entries drawn in a section
  // ---------------------------------------------------------------------------

  /** What a section reads from one entry: its name, rendered value and unit. */
  datatype EntryView = EntryView(name: string, valueDisplay: string, unit: string, hideWhenNoData: bool)

  /** An entry is skipped when it hides without data and its value renders as "-". */
  predicate IsDrawn(e: EntryView)
  {
    !(e.hideWhenNoData && e.valueDisplay == "-")
  }

  /** The entries a section draws, in order. */
  function DrawnEntries(es: seq<EntryView>): seq<EntryView>
  {
    if es == [] then []
    else DrawnEntries(es[..|es| - 1]) + (if IsDrawn(es[|es| - 1]) then [es[|es| - 1]] else [])
  }

  /** Exactly the entries that are not hidden are drawn, and never more than there are. */
  lemma {:induction false} DrawnEntriesSpec(es: seq<EntryView>)
    ensures forall e :: e in DrawnEntries(es) <==> e in es && IsDrawn(e)
    ensures |DrawnEntries(es)| <= |es|
  {
    if es != [] {
      var init, last := es[..|es| - 1], es[|es| - 1];
      DrawnEntriesSpec(init);
      assert es == init + [last];
      var tail := if IsDrawn(last) then [last] else [];
      assert DrawnEntries(es) == DrawnEntries(init) + tail;
      forall e
        ensures e in DrawnEntries(es) <==> e in es && IsDrawn(e)
      {
        assert e in DrawnEntries(es) <==> e in DrawnEntries(init) || e in tail;
        assert e in es <==> e in init || e == last;
      }
    }
  }

  /** When no entry hides, the section draws all of them, in order. */
  lemma {:induction false} DrawnEntriesAllShown(es: seq<EntryView>)
    requires forall k :: 0 <= k < |es| ==> IsDrawn(es[k])
    ensures DrawnEntries(es) == es
  {
    if es != [] {
      var init := es[..|es| - 1];
      assert forall k :: 0 <= k < |init| ==> IsDrawn(init[k]) by {
        forall k | 0 <= k < |init| ensures IsDrawn(init[k]) {
          assert init[k] == es[k];
        }
      }
      DrawnEntriesAllShown(init);
      assert es == init + [es[|es| - 1]];
    }
  }

  /** The entry loop of `FillMainGUI` and `DrawPopoutWindow`. */
  method DrawEntries(es: seq<EntryView>) returns (drawn: seq<EntryView>)
    ensures drawn == DrawnEntries(es)
  {
    drawn := [];
    for i := 0 to |es|
      invariant drawn == DrawnEntries(es[..i])
    {
      assert es[..i + 1][..i] == es[..i];
      if !IsDrawn(es[i]) {
        continue;
      }
      drawn := drawn + [es[i]];
    }
    assert es[..|es|] == es;
  }

  // ---------------------------------------------------------------------------
  // The stage table
  // ---------------------------------------------------------------------------

  /** The highest actual TWR of the stages. */
  function MaxTwr(ss: seq<StageInfoEntries.DeltaVStageInfo>): (m: real)
    requires |ss| > 0
  {
    if |ss| == 1 then ss[0].twrActual
    else
      var rest := MaxTwr(ss[..|ss| - 1]);
      if ss[|ss| - 1].twrActual > rest then ss[|ss| - 1].twrActual else rest
  }

  /** The maximum is the TWR of one of the stages and no stage exceeds it. */
  lemma {:induction false} MaxTwrSpec(ss: seq<StageInfoEntries.DeltaVStageInfo>)
    requires |ss| > 0
    ensures forall k :: 0 <= k < |ss| ==> ss[k].twrActual <= MaxTwr(ss)
    ensures exists k :: 0 <= k < |ss| && ss[k].twrActual == MaxTwr(ss)
  {
    if |ss| > 1 {
      var init := ss[..|ss| - 1];
      MaxTwrSpec(init);
      var j :| 0 <= j < |init| && init[j].twrActual == MaxTwr(init);
      assert forall k :: 0 <= k < |init| ==> ss[k] == init[k];
      if ss[|ss| - 1].twrActual > MaxTwr(init) {
        assert ss[|ss| - 1].twrActual == MaxTwr(ss);
      } else {
        assert ss[j] == init[j];
        assert ss[j].twrActual == MaxTwr(ss);
      }
    } else {
      assert ss[0].twrActual == MaxTwr(ss);
    }
  }

  /**
   * The number format of the TWR column, from the number of digits before the decimal
   * point of the floored highest TWR: one decimal for three digits, none for four, two
   * otherwise (also when the floored TWR is below one).
   */
  function TwrFormat(highestTwr: real): (format: string)
    ensures format == "N1" <==> highestTwr.Floor >= 1 && |Text.NatToString(highestTwr.Floor)| == 3
    ensures format == "N0" <==> highestTwr.Floor >= 1 && |Text.NatToString(highestTwr.Floor)| == 4
    ensures format == "N2" <==> highestTwr.Floor < 100 || highestTwr.Floor >= 10000
  {
    var f := highestTwr.Floor;
    if f >= 1 then Text.NatToStringWidth(f); TwrFormatOfFloor(f) else "N2"
  }

  function TwrFormatOfFloor(f: int): string
  {
    if 100 <= f < 1000 then "N1" else if 1000 <= f < 10000 then "N0" else "N2"
  }

  /** One drawn stage row: its number and the stage it shows. */
  datatype DrawnStage = DrawnStage(number: int, info: StageInfoEntries.DeltaVStageInfo)

  /** Rows for the given stages, numbered against a report of `reportLength` stages. */
  function RowsOf(stages: seq<StageInfoEntries.DeltaVStageInfo>, reportLength: int): seq<DrawnStage>
  {
    seq(|stages|, k requires 0 <= k < |stages| => DrawnStage(reportLength - stages[k].stage, stages[k]))
  }

  /** The rows `DrawStages` draws: the stages with delta-v, last first. */
  function StageRows(ss: seq<StageInfoEntries.DeltaVStageInfo>): seq<DrawnStage>
  {
    RowsOf(StageInfoEntries.Reverse(StageInfoEntries.NonEmptyStages(ss)), |ss|)
  }

  /** Walking one more stage backwards adds its row, if it has delta-v, at the end. */
  lemma StageRowsStep(ss: seq<StageInfoEntries.DeltaVStageInfo>, i: nat)
    requires i < |ss|
    ensures RowsOf(StageInfoEntries.Reverse(StageInfoEntries.NonEmptyStages(ss[i..])), |ss|)
         == RowsOf(StageInfoEntries.Reverse(StageInfoEntries.NonEmptyStages(ss[i + 1..])), |ss|)
            + (if StageInfoEntries.IsNonEmpty(ss[i]) then [DrawnStage(|ss| - ss[i].stage, ss[i])] else [])
  {
    var rest := StageInfoEntries.NonEmptyStages(ss[i + 1..]);
    assert ss[i..] == [ss[i]] + ss[i + 1..];
    StageInfoEntries.NonEmptyStagesSpec([ss[i]], ss[i + 1..]);
    assert [ss[i]][1..] == [];
    if StageInfoEntries.IsNonEmpty(ss[i]) {
      var all := [ss[i]] + rest;
      assert all[1..] == rest;
      assert StageInfoEntries.Reverse(all) == StageInfoEntries.Reverse(rest) + [ss[i]];
    } else {
      assert [] + rest == rest;
    }
  }

  /**
   * `DrawStages`: with a non-empty stage list, the TWR format and one row per stage with
   * delta-v, walked from the last stage to the first; otherwise nothing.
   */
  method DrawStages(stages: Option<seq<StageInfoEntries.DeltaVStageInfo>>)
    returns (format: Option<string>, rows: seq<DrawnStage>)
    ensures stages.None? || |stages.value| == 0 ==> format.None? && rows == []
    ensures stages.Some? && |stages.value| > 0 ==>
      format == Some(TwrFormat(MaxTwr(stages.value))) && rows == StageRows(stages.value)
  {
    format, rows := None, [];
    var stageCount := if stages.Some? then |stages.value| else 0;
    if stages.Some? && stageCount > 0 {
      format := Some(TwrFormat(MaxTwr(stages.value)));
      rows := DrawStageRows(stages.value);
    }
  }

  /** The stage loop of `DrawStages`, from the last stage to the first. */
  method DrawStageRows(ss: seq<StageInfoEntries.DeltaVStageInfo>) returns (rows: seq<DrawnStage>)
    ensures rows == StageRows(ss)
  {
    rows := [];
    var stageCount := |ss|;
    var i := |ss| - 1;
    assert ss[|ss|..] == [];
    while i >= 0
      invariant -1 <= i < |ss|
      invariant rows == RowsOf(StageInfoEntries.Reverse(StageInfoEntries.NonEmptyStages(ss[i + 1..])), |ss|)
    {
      StageRowsStep(ss, i);
      var stageInfo := ss[i];
      if StageInfoEntries.IsNonEmpty(stageInfo) {
        var stageNum := stageCount - stageInfo.stage;
        rows := rows + [DrawnStage(stageNum, stageInfo)];
      }
      i := i - 1;
    }
    assert ss[0..] == ss;
  }

  /**
   * The rows drawn here are the rows of the flight stage table: the same stages, in the
   * same order, under the same numbers.
   */
  lemma StageRowsMatchStageTable(ss: seq<StageInfoEntries.DeltaVStageInfo>, limits: Utility.TimeLimits)
    ensures |StageRows(ss)| == |StageInfoEntries.StageTable(Some(ss), limits)|
    ensures forall k :: 0 <= k < |StageRows(ss)| ==>
      StageRows(ss)[k].number == StageInfoEntries.StageTable(Some(ss), limits)[k].stageNumber
      && StageRows(ss)[k].info.deltaVActual == StageInfoEntries.StageTable(Some(ss), limits)[k].deltaVActual
  {
  }

  /** Every drawn stage has delta-v left and comes from the report. */
  lemma StageRowsSound(ss: seq<StageInfoEntries.DeltaVStageInfo>)
    ensures forall k :: 0 <= k < |StageRows(ss)| ==>
      StageInfoEntries.IsNonEmpty(StageRows(ss)[k].info) && StageRows(ss)[k].info in ss
  {
    var ne := StageInfoEntries.NonEmptyStages(ss);
    StageInfoEntries.NonEmptyStagesSpec(ss, []);
    var rev := StageInfoEntries.Reverse(ne);
    forall k | 0 <= k < |StageRows(ss)|
      ensures StageInfoEntries.IsNonEmpty(StageRows(ss)[k].info) && StageRows(ss)[k].info in ss
    {
      assert StageRows(ss)[k].info == rev[k] == ne[|ne| - 1 - k];
      assert ne[|ne| - 1 - k] in ne;
    }
  }

  // ---------------------------------------------------------------------------
  // Section headers
  // ---------------------------------------------------------------------------

  /**
   * `DrawSectionHeader`: an unlocked popped-out section is docked by its close button, a
   * docked one popped out by its arrow, and a locked popped-out one stays out.
   */
  function SectionPopOut(isPopout: bool, isLocked: bool, closeClicked: bool, arrowClicked: bool)
    : (poppedOut: bool)
    ensures isPopout && isLocked ==> poppedOut
    ensures isPopout && !isLocked ==> (poppedOut <==> !closeClicked)
    ensures !isPopout ==> (poppedOut <==> arrowClicked)
  {
    if isPopout && !isLocked then !closeClicked else if !isPopout then arrowClicked else isPopout
  }

  /** `DrawStagesHeader`: the stage section ignores the lock. */
  function StagesPopOut(isPopout: bool, closeClicked: bool, arrowClicked: bool): (poppedOut: bool)
    ensures isPopout ==> (poppedOut <==> !closeClicked)
    ensures !isPopout ==> (poppedOut <==> arrowClicked)
  {
    if isPopout then !closeClicked else arrowClicked
  }

  /**
   * For an unlocked section, clicking the one visible button flips the pop-out state as
   * the pop-out and close buttons of a flight window do, and so does the stage header.
   */
  lemma SectionPopOutMatchesFlightWindow(isPopout: bool, active: bool)
    ensures SectionPopOut(isPopout, false, true, true)
         == EntryWindows.PopOutOrClose(EntryWindows.FlightFlags(isPopout, active)).poppedOut
    ensures StagesPopOut(isPopout, true, true) == SectionPopOut(isPopout, false, true, true)
  {
  }

  // ---------------------------------------------------------------------------
  // The edit window
  // ---------------------------------------------------------------------------

  /** The category shown after "<": the previous one, wrapping from the first to the last. */
  function PreviousCategory(c: Windows.Category): (r: Windows.Category)
    ensures Windows.CategoryOrdinal(r) == EditWindows.PreviousWindowId(Windows.CategoryOrdinal(c), Windows.CategoryCount)
    ensures c == Windows.Category.Vessel ==> r == Windows.Category.OAB
  {
    var i := Windows.CategoryOrdinal(c);
    if i > 0 then Windows.CategoryAt(i - 1) else Windows.CategoryAt(Windows.CategoryCount - 1)
  }

  /** The category shown after ">": the next one, wrapping from the last to the first. */
  function NextCategory(c: Windows.Category): (r: Windows.Category)
    ensures Windows.CategoryOrdinal(r) == EditWindows.NextWindowId(Windows.CategoryOrdinal(c), Windows.CategoryCount)
    ensures c == Windows.Category.OAB ==> r == Windows.Category.Vessel
  {
    var i := Windows.CategoryOrdinal(c);
    if i < Windows.CategoryCount - 1 then Windows.CategoryAt(i + 1) else Windows.CategoryAt(0)
  }

  /** A category is determined by its integer value. */
  lemma CategoryOrdinalInjective(a: Windows.Category, b: Windows.Category)
    requires Windows.CategoryOrdinal(a) == Windows.CategoryOrdinal(b)
    ensures a == b
  {
  }

  /** "<" undoes ">" and ">" undoes "<". */
  lemma CategoryArrowsInverse(c: Windows.Category)
    ensures PreviousCategory(NextCategory(c)) == c
    ensures NextCategory(PreviousCategory(c)) == c
  {
    EditWindows.PreviousUndoesNext(Windows.CategoryOrdinal(c), Windows.CategoryCount);
    CategoryOrdinalInjective(PreviousCategory(NextCategory(c)), c);
    CategoryOrdinalInjective(NextCategory(PreviousCategory(c)), c);
  }

  /**
   * The "?" button of the available entry at `index`: it opens that entry's description,
   * or closes it when it is the one already open.
   */
  function ToggleTooltip(showTooltip: (bool, int), index: int): (r: (bool, int))
    ensures r.1 == index
    ensures r.0 <==> !(showTooltip.0 && showTooltip.1 == index)
  {
    if !showTooltip.0 then (true, index)
    else if showTooltip.1 != index then (true, index)
    else (false, index)
  }

  /** Two presses of the same "?" toggle the description back. */
  lemma ToggleTooltipTwice(showTooltip: (bool, int), index: int)
    ensures ToggleTooltip(ToggleTooltip(showTooltip, index), index).0 == !ToggleTooltip(showTooltip, index).0
    ensures ToggleTooltip(ToggleTooltip(showTooltip, index), index).1 == index
  {
  }

  /**
   * Removing an editable window from the window list removes it from the editable list,
   * and removes nothing else from it.
   */
  lemma {:induction false} EditableOfRemoveFirst(ws: seq<Windows.Window>, w: Windows.Window)
    requires w.IsEditable()
    ensures Windows.EditableOf(Windows.RemoveFirst(ws, w)) == Windows.RemoveFirst(Windows.EditableOf(ws), w)
  {
    if ws != [] {
      var rest := ws[1..];
      if ws[0] != w {
        EditableOfRemoveFirst(rest, w);
        var removed := [ws[0]] + Windows.RemoveFirst(rest, w);
        assert removed[0] == ws[0] && removed[1..] == Windows.RemoveFirst(rest, w);
        assert Windows.RemoveFirst(ws, w) == removed;
        if ws[0].IsEditable() {
          var editable := [ws[0]] + Windows.EditableOf(rest);
          assert editable[0] == ws[0] && editable[1..] == Windows.EditableOf(rest);
          assert Windows.EditableOf(ws) == editable;
          assert Windows.EditableOf(removed) == [ws[0]] + Windows.EditableOf(Windows.RemoveFirst(rest, w));
          assert Windows.RemoveFirst(editable, w) == [ws[0]] + Windows.RemoveFirst(Windows.EditableOf(rest), w);
        } else {
          assert Windows.EditableOf(ws) == Windows.EditableOf(rest);
          assert Windows.EditableOf(removed) == Windows.EditableOf(Windows.RemoveFirst(rest, w));
        }
      } else {
        var editable := [ws[0]] + Windows.EditableOf(rest);
        assert editable[0] == w && editable[1..] == Windows.EditableOf(rest);
      }
    }
  }

  /** The edit-window fields of `UI`, over the manager's window list. */
  class EditWindowState {
    const manager: Managers.Manager
    var showEditWindow: bool
    var selectedWindowId: int
    var selectedCategory: Windows.Category
    var showTooltip: (bool, int)

    constructor (manager: Managers.Manager)
      ensures this.manager == manager
      ensures !showEditWindow && selectedWindowId == 0
      ensures selectedCategory == Windows.Category.Vessel && showTooltip == (false, 0)
    {
      this.manager := manager;
      showEditWindow, selectedWindowId := false, 0;
      selectedCategory, showTooltip := Windows.Category.Vessel, (false, 0);
    }

    /** The window "<" of the edit window, over the editable windows. */
    method PreviousWindowButton()
      modifies this
      ensures selectedWindowId ==
        EditWindows.PreviousWindowId(old(selectedWindowId), |Windows.EditableOf(manager.windows)|)
      ensures showEditWindow == old(showEditWindow) && selectedCategory == old(selectedCategory)
      ensures showTooltip == old(showTooltip)
    {
      var editableWindows := Windows.EditableOf(manager.windows);
      selectedWindowId := if selectedWindowId > 0 then selectedWindowId - 1 else |editableWindows| - 1;
    }

    /** The window ">" of the edit window, over the editable windows. */
    method NextWindowButton()
      modifies this
      ensures selectedWindowId ==
        EditWindows.NextWindowId(old(selectedWindowId), |Windows.EditableOf(manager.windows)|)
      ensures showEditWindow == old(showEditWindow) && selectedCategory == old(selectedCategory)
      ensures showTooltip == old(showTooltip)
    {
      var editableWindows := Windows.EditableOf(manager.windows);
      selectedWindowId := if selectedWindowId < |editableWindows| - 1 then selectedWindowId + 1 else 0;
    }

    /** The category "<" of the edit window. */
    method PreviousCategoryButton()
      modifies this
      ensures selectedCategory == PreviousCategory(old(selectedCategory))
      ensures selectedWindowId == old(selectedWindowId) && showTooltip == old(showTooltip)
      ensures showEditWindow == old(showEditWindow)
    {
      selectedCategory := PreviousCategory(selectedCategory);
    }

    /** The category ">" of the edit window. */
    method NextCategoryButton()
      modifies this
      ensures selectedCategory == NextCategory(old(selectedCategory))
      ensures selectedWindowId == old(selectedWindowId) && showTooltip == old(showTooltip)
      ensures showEditWindow == old(showEditWindow)
    {
      selectedCategory := NextCategory(selectedCategory);
    }

    /** The "?" button of the available entry at `index`. */
    method TooltipButton(index: int)
      modifies this
      ensures showTooltip == ToggleTooltip(old(showTooltip), index)
      ensures selectedWindowId == old(selectedWindowId) && selectedCategory == old(selectedCategory)
      ensures showEditWindow == old(showEditWindow)
    {
      if !showTooltip.0 {
        showTooltip := (true, index);
      } else {
        if showTooltip.1 != index {
          showTooltip := (true, index);
        } else {
          showTooltip := (false, index);
        }
      }
    }

    /**
     * "DEL WINDOW": a deletable selected window leaves the window list (and so the
     * editable list) and the selection moves one place back. Indexing the editable list
     * outside its bounds throws.
     */
    method DeleteWindowButton() returns (outcome: Option<Failure>)
      modifies this`selectedWindowId, manager`windows
      ensures manager.entries == old(manager.entries)
      ensures selectedCategory == old(selectedCategory) && showTooltip == old(showTooltip)
      ensures showEditWindow == old(showEditWindow)
      ensures outcome.Some? <==>
        !(0 <= old(selectedWindowId) < |Windows.EditableOf(old(manager.windows))|)
      ensures outcome.Some? ==>
        (outcome.value == ArgumentOutOfRange
         && manager.windows == old(manager.windows) && selectedWindowId == old(selectedWindowId))
      ensures outcome.None? ==>
        var w := Windows.EditableOf(old(manager.windows))[old(selectedWindowId)];
        if w.IsDeletable() then
          && manager.windows == Windows.RemoveFirst(old(manager.windows), w)
          && Windows.EditableOf(manager.windows) == Windows.RemoveFirst(Windows.EditableOf(old(manager.windows)), w)
          && selectedWindowId == old(selectedWindowId) - 1
          && (old(selectedWindowId) > 0 ==> 0 <= selectedWindowId < |Windows.EditableOf(manager.windows)|)
        else
          manager.windows == old(manager.windows) && selectedWindowId == old(selectedWindowId)
    {
      var editableWindows := Windows.EditableOf(manager.windows);
      if !(0 <= selectedWindowId < |editableWindows|) {
        return Some(ArgumentOutOfRange);
      }
      outcome := None;
      var w := editableWindows[selectedWindowId];
      if w.IsDeletable() {
        assert w in editableWindows;
        Windows.EditableOfSpec(manager.windows);
        EditableOfRemoveFirst(manager.windows, w);
        manager.windows := Windows.RemoveFirst(manager.windows, w);
        selectedWindowId := selectedWindowId - 1;
      }
    }
  }
}
