# Micro Engineer: a verified model of its layout, stage and editing logic

Micro Engineer is a Kerbal Space Program 2 plugin that shows flight and vehicle-assembly
data in configurable windows. Each window (a "section") holds entries such as vessel
mass, stage delta-v or time to apoapsis. This project models the parts of the plugin
that decide things, as opposed to the parts that draw widgets or read the game:

- the game-calendar split of a second count, the degrees/minutes/seconds split of an
  angle, the enum-to-text mappers, and the version gate on a loaded layout (`Utility`);
- the flight stage table, and the dry, fuel and end mass of the current stage
  (`StageInfoEntries`, `VesselEntries`);
- the rebuild of the vehicle-assembly stage list. It keeps a per-stage list of celestial
  bodies, and computes the torque entry and its unit (`OabStageInfoEntries`);
- the default window layout, custom window creation, and the throttled refresh of the
  Stage window on each flight tick (`Managers`);
- the non-stageable resources filter (`VesselEntries`);
- the edit-window controller: window and entry selection, double clicks, moving,
  adding and removing entries, deleting and locking windows, and the decimal-digit
  buttons (`EditWindows`);
- the flight window controller: pop-out and close, collapse, maneuver header and
  footer, hidden entries, and the alternative unit toggle (`EntryWindows`);
- the older immediate-mode interface: section toggle rows, docked sections, hidden
  entries, the stage table and its TWR format, section pop-out, and the edit-window
  state (`LegacyUi`).

Windows, entries and the manager are classes whose fields the methods update in place.
Where a controller method writes only some fields, its `modifies` clause names them
(``modifies this`installed``), so every field it does not name is proved unchanged for
its callers. Lists the source mutates are `seq` fields. Pure computations are
functions, with lemmas stating what they promise. Loops that build up state step by
step are `while`/`for` loops proved against a specification function. A `foreach` that
only filters, sums or maps a list is a recursive function instead: for example the
docked-section pick (UI.cs:257-269, `LegacyUi.DockedSections`) and the category filter
of the edit window (EditWindowsController.cs:107-108, `EditWindows.OfCategory`). Host data (delta-v reports, resource definitions,
clock readings, mouse buttons, physics results) enters as parameters.
`Wrappers` holds `Option`/`Result` and the exceptions the source can raise. `Text`
holds the decimal rendering and ASCII case mapping the code relies on.

## Model

| member | source | states |
|---|---|---|
| Text.NatToStringLength | src/MicroEngineer/Managers/Manager.cs:321 | `n.ToString()` has one digit exactly below 10 and two exactly in [10, 100); this drives the abbreviation rule |
| Text.NatToStringWidth | MicroEngineerProject/MicroEngineer/Managers/UI.cs:364-374 | three digits exactly in [100, 1000) and four exactly in [1000, 10000); this drives the TWR format |
| Text.NatToStringInjective | src/MicroEngineer/Managers/Manager.cs:316 | distinct numbers render differently, so distinct ids give distinct "Custom" names |
| Text.IntToString | src/MicroEngineer/UI/EntryWindowController.cs:347 | a non-negative number renders as its decimal digits, a negative one as '-' followed by the digits of its magnitude; so the text starts with '-' exactly for negative numbers |
| Text.ToLower | src/MicroEngineer/Utilities/Utility.cs:125 | maps each upper-case ASCII letter to its lower-case counterpart (code point + 32), leaves every other character alone, and never returns an upper-case letter |
| Text.ToUpper | src/MicroEngineer/Utilities/Utility.cs:126 | maps each lower-case ASCII letter to its upper-case counterpart (code point − 32), leaves every other character alone, and never returns a lower-case letter |
| Windows.CategoryOrdinal | MicroEngineerProject/MicroEngineer/Managers/UI.cs:578-590 | `(int)category` lies in [0, 9) |
| Windows.CategoryAt | MicroEngineerProject/MicroEngineer/Managers/UI.cs:578-590 | the category with a given integer value has that value, so casting back inverts `(int)` |
| Windows.EditableOfSpec | MicroEngineerProject/MicroEngineer/Managers/UI.cs:490 | `FindAll(w => w.IsEditable)` holds exactly the editable windows and is no longer than the list |
| Windows.RemoveFirst | src/MicroEngineer/UI/EditWindowsController.cs:330-331 | `List.Remove`: an absent element leaves the list alone; a present one shortens it by one; nothing else is lost and nothing is added |
| Windows.RemoveFirstAt | src/MicroEngineer/UI/EditWindowsController.cs:330-331 | removing an element whose first occurrence is at k keeps the prefix before k and shifts the rest left |
| Windows.Window.constructor | src/MicroEngineer/Managers/Manager.cs:318-334 | a new window carries exactly the given tag, name, abbreviation, flags and entries |
| Windows.Entry.FreshInstance | src/MicroEngineer/UI/EditWindowsController.cs:292 | `Activator.CreateInstance(entry.GetType())`: a fresh entry of the same class with that class's defaults |
| Managers.DefaultsOf | src/MicroEngineer/Managers/Manager.cs:147 | a category window's entries are exactly the default entries of that category, taken from the master list |
| Managers.DefaultsOfAppend | src/MicroEngineer/Managers/Manager.cs:147 | the filter keeps master-list order: filtering a concatenation concatenates the filtered parts |
| Managers.FirstIndexOfType | src/MicroEngineer/Managers/Manager.cs:284-291 | the index of the first entry of a class, with no earlier entry of that class |
| Managers.FindByType | src/MicroEngineer/Managers/Manager.cs:284-291 | `Entries.Find(e => e is T)` is null exactly when no entry has the class, and otherwise the first one |
| Managers.FindAllByType | src/MicroEngineer/Managers/Manager.cs:280-292 | the "For Science!" entries are the first entry of each listed class, in the listed order |
| Managers.DefaultLayoutTags | src/MicroEngineer/Managers/Manager.cs:107-293 | the default layout has 11 windows tagged MainGui, Settings, Vessel, Orbital, Surface, Flight, Target, Maneuver, Stage, StageInfoOAB, None in that order |
| Managers.DefaultLayoutEditable | src/MicroEngineer/Managers/Manager.cs:107-293 | the editable windows of the default layout are the six category windows and "For Science!" |
| Managers.DefaultLayoutDeletable | src/MicroEngineer/Managers/Manager.cs:267-292 | in the default layout only "For Science!" is deletable |
| Managers.Manager.constructor | src/MicroEngineer/Managers/Manager.cs:23-27 | the manager holds the given entries and a default layout of distinct fresh windows |
| Managers.Manager.InitializeWindows | src/MicroEngineer/Managers/Manager.cs:107-293 | the window list becomes the default layout built from the entries; the entries are unchanged |
| Managers.BuildWindow | src/MicroEngineer/Managers/Manager.cs:132-148 | one window of the default layout, with the tag, name, abbreviation, flags and entries its description prescribes |
| Managers.CustomNameInjective | src/MicroEngineer/Managers/Manager.cs:316 | "Custom"+n names distinct windows for distinct n |
| Managers.NamesOf | src/MicroEngineer/Managers/Manager.cs:312-316 | the window names, position by position |
| Managers.UsedIdsBound | src/MicroEngineer/Managers/Manager.cs:310-316 | if "Custom1".."Customn" are all taken then there are at least n windows, so an unused id exists |
| Managers.ScanIdSkipsOnlyUsed | src/MicroEngineer/Managers/Manager.cs:311-316 | the source's single pass only moves past ids whose name it has seen |
| Managers.CustomNameIdAsWritten | src/MicroEngineer/Managers/Manager.cs:311-316 | the id the source's loop computes: one pass that counts up whenever the current name equals "Custom"+id |
| Managers.AsWrittenRepeatsName | src/MicroEngineer/Managers/Manager.cs:310-316 | for windows named "Custom2", "Custom1" the source's pass picks 2, a name already in use |
| Managers.FirstUnusedCustomId | src/MicroEngineer/Managers/Manager.cs:310-316 | the first id whose "Custom" name is unused: every smaller id is taken and this one is not |
| Managers.CustomAbbreviation | src/MicroEngineer/Managers/Manager.cs:321 | "Cu"+n for one digit, "C"+n for two digits, n otherwise; always at least three characters |
| Managers.CustomAbbreviationShape | src/MicroEngineer/Managers/Manager.cs:321 | the abbreviation starts with 'C' exactly below 100 and with "Cu" exactly below 10 |
| Managers.CustomAbbreviationInjective | src/MicroEngineer/Managers/Manager.cs:321 | distinct ids give distinct abbreviations |
| Managers.Manager.CreateCustomWindow | src/MicroEngineer/Managers/Manager.cs:308-340 | a fresh, active, unlocked, docked, empty window with tag None and the first unused custom name is appended to both lists; the result is its index in the editable list; only the two window lists are in the frame |
| Managers.FirstMainGui | src/MicroEngineer/Managers/Manager.cs:44 | `OfType<MainGuiWindow>().FirstOrDefault()`: a MainGui window from the list, or none exactly when the list has none |
| Managers.RefreshPassSpec | src/MicroEngineer/Managers/Manager.cs:55-73 | a tick refreshes only active entry windows and every such non-Stage window; a Stage window refreshes exactly when an active one exists and more than the interval has passed; the timestamp moves to now exactly then |
| Managers.RunRefreshPass | src/MicroEngineer/Managers/Manager.cs:55-73 | the window loop refreshes exactly the windows of one pass, in order, and leaves the timestamp where the pass does |
| Managers.Manager.DoFlightUpdate | src/MicroEngineer/Managers/Manager.cs:40-75 | a list without MainGui throws; outside flight or map view, with MainGui inactive or without a vessel nothing refreshes; otherwise the refreshed windows and new timestamp are those of one pass |
| Utility.Ceiling | src/MicroEngineer/Utilities/Utility.cs:86 | `Math.Ceiling`: the least integer not below the input |
| Utility.Decompose | src/MicroEngineer/Utilities/Utility.cs:87-93 | years, days, hours, minutes and seconds sum back to the input, each part below its radix (426, 6, 60, 60) |
| Utility.ParseSecondsToTimeFormat | src/MicroEngineer/Utilities/Utility.cs:79-106 | +∞ and −∞ give the limits; otherwise the magnitudes are the normalized split of \|ceil(s)\|, all non-negative for non-negative input, and for negative input only the leading non-zero part is negated |
| Utility.ParsedTimeRoundTrip | src/MicroEngineer/Utilities/Utility.cs:86-103 | recombining the signed parts gives back ceil(s) |
| Utility.ParseZero | src/MicroEngineer/Utilities/Utility.cs:96-103 | an input in (−1, 0] gives all zeros |
| Utility.DaysAsWritten | src/MicroEngineer/Utilities/Utility.cs:89-90 | the days the source computes, with `years * 9201600` wrapped to 32 bits; it agrees with the true split below 234 years |
| Utility.DaysOverflowAt234Years | src/MicroEngineer/Utilities/Utility.cs:89-90 | at 2,153,174,400 s the wrapped product gives 198841 days, outside [0, 426), where the true split gives 0 |
| Utility.ParseDegreesToDMSFormat | src/MicroEngineer/Utilities/Utility.cs:69-77 | fails exactly when the angle overflows `TimeSpan`; otherwise minutes and seconds lie in [0, 60), degrees are the floor of the millisecond-rounded magnitude, and the parts recombine to the rounded total seconds |
| Utility.DmsIgnoresSign | src/MicroEngineer/Utilities/Utility.cs:71 | an angle and its negation give the same result |
| Utility.SituationToString | src/MicroEngineer/Utilities/Utility.cs:108-121 | "UNKNOWN" exactly for a value outside the named situations |
| Utility.SituationLabelsDistinct | src/MicroEngineer/Utilities/Utility.cs:108-121 | every named situation has its own label: the label maps back to the situation |
| Utility.ScienceSituationToString | src/MicroEngineer/Utilities/Utility.cs:129-141 | "UNKNOWN" exactly for a value outside the named science situations |
| Utility.ScienceSituationLabelsDistinct | src/MicroEngineer/Utilities/Utility.cs:129-141 | every named science situation's label maps back to it |
| Utility.ExperimentStateToString | src/MicroEngineer/Utilities/Utility.cs:152-163 | 0 gives "Nothing new", 2 "EVA Available!", 4 "In progress"; "Available!" exactly for 1 and 3, "UNKNOWN" exactly outside [0, 4] |
| Utility.ExperimentLabelsDistinct | src/MicroEngineer/Utilities/Utility.cs:156-161 | two known states share a label exactly when they are equal or are 1 and 3 |
| Utility.BiomeToString | src/MicroEngineer/Utilities/Utility.cs:123-127 | same length; the first character is the upper-cased, lower-cased, '_'-to-space form of the name's first character, and every later one the lower-cased, '_'-to-space form of the name's character at that place |
| Utility.BiomeToStringIdempotent | src/MicroEngineer/Utilities/Utility.cs:123-127 | formatting a formatted name changes nothing |
| Utility.RemoveAllIgnoringCase | src/MicroEngineer/Utilities/Utility.cs:146 | `Replace(body, "", OrdinalIgnoreCase)` never lengthens the string |
| Utility.RemoveAllChangesIffContains | src/MicroEngineer/Utilities/Utility.cs:145-146 | removal leaves the string unchanged when the body does not occur, and shortens it when it does |
| Utility.ScienceRegionToString | src/MicroEngineer/Utilities/Utility.cs:143-150 | the result is the region with every ignore-case occurrence of the body removed, and it is the region unchanged exactly when the body does not occur |
| Utility.MatchesAtDrop | src/MicroEngineer/Utilities/Utility.cs:146 | dropping a prefix of length i moves every ignore-case match i places left |
| Utility.RemoveAllKeepsUnmatchedPrefix | src/MicroEngineer/Utilities/Utility.cs:146 | where no match starts before offset i, removal copies the first i characters unchanged and carries on from i |
| Utility.RemoveAllAtFirstMatch | src/MicroEngineer/Utilities/Utility.cs:146 | with the leftmost match at k, the result is the text before it followed by the removal applied after the match: nothing before it is lost and none of it survives |
| Utility.LoadLayout | src/MicroEngineer/Utilities/Utility.cs:183-217 | the window list becomes the loaded list exactly when it has a MainGui window of layout version ≥ 14; otherwise it is untouched |
| Utility.DefaultLayoutAccepted | src/MicroEngineer/Utilities/Utility.cs:190-196 | a saved default layout passes the version gate |
| StageInfoEntries.NonEmptyStagesSpec | src/MicroEngineer/Entries/StageInfoEntries.cs:36-43 | the filter keeps exactly the stages with more than 0.0001 delta-v in vacuum or at sea level, in order |
| StageInfoEntries.Reverse | src/MicroEngineer/Entries/StageInfoEntries.cs:45 | element k of the result is element n−1−k of the input |
| StageInfoEntries.ParseStages | src/MicroEngineer/Entries/StageInfoEntries.cs:29-62 | the two loops produce the stage table of the report |
| StageInfoEntries.StageTableOfNull | src/MicroEngineer/Entries/StageInfoEntries.cs:33-34 | a null report gives an empty table |
| StageInfoEntries.StageTableRows | src/MicroEngineer/Entries/StageInfoEntries.cs:36-58 | row k is the k-th stage with delta-v counted from the end, numbered by the full report length minus its stage; every such stage has a row and no other |
| StageInfoEntries.ReversedStagesSpec | src/MicroEngineer/Entries/StageInfoEntries.cs:36-45 | the stages walked backwards are exactly the report's stages with delta-v |
| StageInfoEntries.BurnTimeWithinYear | src/MicroEngineer/Entries/StageInfoEntries.cs:47-56 | the burn columns drop the years: for a non-negative burn time they are ceil(t) modulo one game year, each in range |
| StageInfoEntries.FirstStage | src/MicroEngineer/Entries/StageInfoEntries.cs:146 | `VesselDeltaV?.StageInfo.FirstOrDefault()`: throws exactly on a null stage list, is null without a report or with no stage, and is otherwise the first stage |
| StageInfoEntries.StageDryMass | src/MicroEngineer/Entries/StageInfoEntries.cs:103-122 | null exactly when there is no report or no stage |
| StageInfoEntries.StageDryMassSplits | src/MicroEngineer/Entries/StageInfoEntries.cs:112-121 | the stage dry mass plus the next stage's dry mass is the first stage's dry mass, in kilograms |
| StageInfoEntries.StageFuelMass | src/MicroEngineer/Entries/StageInfoEntries.cs:144-154 | throws and is null exactly when the first stage lookup does; otherwise it is (start − end) × 1000, or 0 when the end mass is 0 |
| StageInfoEntries.StageEndMass | src/MicroEngineer/Entries/StageInfoEntries.cs:176-186 | throws exactly when the first stage lookup does; with a first stage it is null exactly when a non-zero end mass equals the start mass, and otherwise the start mass × 1000 when the end mass is 0, the end mass × 1000 when not |
| StageInfoEntries.FuelPlusEndIsStart | src/MicroEngineer/Entries/StageInfoEntries.cs:144-186 | states both values from the stage's masses; the end mass is null exactly when a non-zero end mass equals the start mass, and then the fuel mass is 0; otherwise fuel plus end is the start mass in kilograms |
| OabStageInfoEntries.DeltaVStageInfoOab.constructor | MicroEngineerProject/MicroEngineer/Entries/OabStageInfoEntries.cs:210-237 | a stage copies the report's fields, its burn time parsed, and has no body yet |
| OabStageInfoEntries.DeltaVStageInfoOab.RecalculateTwr | MicroEngineerProject/MicroEngineer/Entries/OabStageInfoEntries.cs:333 | TWR in vacuum is multiplied by the attached body's TWR factor; no other field changes |
| OabStageInfoEntries.DeltaVStageInfoOab.RecalculateSeaLevelTwr | MicroEngineerProject/MicroEngineer/Entries/OabStageInfoEntries.cs:334 | sea-level TWR becomes the host's sea-level TWR for the body times its factor; no other field changes |
| OabStageInfoEntries.DeltaVStageInfoOab.RecalculateDeltaVSeaLevel | MicroEngineerProject/MicroEngineer/Entries/OabStageInfoEntries.cs:335 | sea-level delta-v becomes the host's value for the body; no other field changes |
| OabStageInfoEntries.DeltaVStageInfoOab.RecalculateStageNumber | MicroEngineerProject/MicroEngineer/Entries/OabStageInfoEntries.cs:336 | the stage number becomes n minus the old one; no other field changes |
| OabStageInfoEntries.GrownBodies | MicroEngineerProject/MicroEngineer/Entries/OabStageInfoEntries.cs:239-250 | the body list keeps its prefix, and grows with the home body to at least the stage count |
| OabStageInfoEntries.GrownBodiesIdempotent | MicroEngineerProject/MicroEngineer/Entries/OabStageInfoEntries.cs:239-250 | a second rebuild with the same stage count leaves the body list as it is |
| OabStageInfoEntries.StagesWithDeltaVSpec | MicroEngineerProject/MicroEngineer/Entries/OabStageInfoEntries.cs:262 | the event's list holds exactly the stages with more than 0.0001 delta-v in vacuum or at sea level |
| OabStageInfoEntries.BuildStage | MicroEngineerProject/MicroEngineer/Entries/OabStageInfoEntries.cs:209-258 | one fresh stage built from report i, attached to its body, with TWR, sea-level values and stage number recalculated |
| OabStageInfoEntries.BuildStages | MicroEngineerProject/MicroEngineer/Entries/OabStageInfoEntries.cs:207-263 | one distinct fresh stage per report, stage i built from report i and body i of the grown body list; event k lists the stages with delta-v among the first k+1 |
| OabStageInfoEntries.StageInfoOab.RefreshData | MicroEngineerProject/MicroEngineer/Entries/OabStageInfoEntries.cs:198-264 | a null report empties the stages and keeps the bodies; otherwise the stages are rebuilt in order, index i attached to body i, with the body list grown and its prefix kept |
| OabStageInfoEntries.StageInfoOab.UpdateCelestialBodyAtIndex | MicroEngineerProject/MicroEngineer/Entries/OabStageInfoEntries.cs:274-279 | an index outside the body list throws and changes nothing; otherwise the refresh starts from the body list with only that element replaced |
| OabStageInfoEntries.SumAppend | MicroEngineerProject/MicroEngineer/Entries/OabStageInfoEntries.cs:147-152 | the thrust sum over a concatenation is the sum of the two sums |
| OabStageInfoEntries.Torque.RefreshData | MicroEngineerProject/MicroEngineer/Entries/OabStageInfoEntries.cs:135-160 | with a zero centre of mass or thrust, or no engines, nothing changes; otherwise the value is the host magnitude of the summed thrust against the lever arm, with its unit |
| OabStageInfoEntries.TorqueUnit | MicroEngineerProject/MicroEngineer/Entries/OabStageInfoEntries.cs:159 | "kNm" exactly from 1.0 up, "Nm" exactly below |
| VesselEntries.MassValue | src/MicroEngineer/Entries/VesselEntries.cs:50 | kilograms are the tonnes times 1000, with the sign kept |
| VesselEntries.DryMassValue | src/MicroEngineer/Entries/VesselEntries.cs:75 | throws or is null exactly when the first stage lookup does; otherwise a thousandth of it is the first stage's dry mass |
| VesselEntries.FuelMassValue | src/MicroEngineer/Entries/VesselEntries.cs:100 | throws or is null exactly when the first stage lookup does; otherwise a thousandth of it is the first stage's fuel mass |
| VesselEntries.UnitFor | src/MicroEngineer/Entries/VesselEntries.cs:573-578 | units symbol exactly for "ElectricCharge", litres exactly for "Water", tonnes exactly for every other name |
| VesselEntries.NonStageableLinesAppend | src/MicroEngineer/Entries/VesselEntries.cs:561-581 | the lines of a concatenation are the two lists of lines, in order |
| VesselEntries.NonStageableLinesSpec | src/MicroEngineer/Entries/VesselEntries.cs:561-581 | every line comes from a non-stageable resource, with its display name and units copied; every non-stageable resource has its line |
| VesselEntries.ParseNonstageableResources | src/MicroEngineer/Entries/VesselEntries.cs:554-584 | a null list throws; otherwise the result is the lines of the non-stageable resources in input order, empty for an empty list |
| EditWindows.PreviousWindowId | src/MicroEngineer/UI/EditWindowsController.cs:234-242 | an id in range stays in range; above 0 it decreases by one |
| EditWindows.NextWindowId | src/MicroEngineer/UI/EditWindowsController.cs:244-252 | an id in range stays in range; below the last it increases by one |
| EditWindows.PreviousUndoesNext | src/MicroEngineer/UI/EditWindowsController.cs:234-252 | "<" after ">" and ">" after "<" return to the same window |
| EditWindows.NextCycles | src/MicroEngineer/UI/EditWindowsController.cs:244-252 | k presses of ">" move k places with one wrap, so count presses return to the start |
| EditWindows.DecimalButtons | src/MicroEngineer/UI/EditWindowsController.cs:361-373 | without a format both buttons are disabled; otherwise "+" is enabled exactly below 5 digits and "−" exactly above 0 |
| EditWindows.DigitsStayInRange | src/MicroEngineer/UI/EditWindowsController.cs:347-373 | pressing an enabled button keeps the digit count in [0, 5] |
| EditWindows.OfCategory | src/MicroEngineer/UI/EditWindowsController.cs:107 | the available entries are exactly the master entries of the selected category |
| EditWindows.OfCategoryAppend | src/MicroEngineer/UI/EditWindowsController.cs:107 | filtering a joined list gives the first part's matches followed by the second's, so master-list order is kept |
| EditWindows.OfCategorySingle | src/MicroEngineer/UI/EditWindowsController.cs:107 | a single entry is listed exactly when it is of the category |
| EditWindows.UpToNull | src/MicroEngineer/UI/EditWindowsController.cs:179-194 | the installed list built before a null entry: a null-free prefix, the whole list when it holds no null |
| EditWindows.UpToNullPrefix | src/MicroEngineer/UI/EditWindowsController.cs:180-194 | a null-free prefix ending at the first null, or at the end, is exactly `UpToNull` |
| EditWindows.SwapWithNext | src/MicroEngineer/UI/EditWindowsController.cs:254-288 | moving an entry swaps it with its neighbour, leaves every other position alone and keeps the multiset of entries |
| EditWindows.EditWindowsController.constructor | src/MicroEngineer/UI/EditWindowsController.cs:82-84 | takes the editable list and resets to the chosen window: with a valid id it shows that window's name and entries, and with no null entries `Valid()` and `ShowsSelectedWindow()` hold; nothing on the left is listed or selected |
| EditWindows.EditWindowsController.ResetSelectedWindow | src/MicroEngineer/UI/EditWindowsController.cs:164-171 | an out-of-range id throws and changes nothing; otherwise the name box shows the window's name and the installed list its entries up to the first null, with nothing selected. A null entry throws and leaves Remove, Delete and the lock toggle as they were; without one, Remove is disabled and Delete and the lock toggle show the window. Only those right-hand fields are in its frame |
| EditWindows.EditWindowsController.BuildInstalledEntries | src/MicroEngineer/UI/EditWindowsController.cs:173-195 | clears the selection and lists the window's entries up to the first null, which throws; its frame is the installed list and its selection only |
| EditWindows.EditWindowsController.BuildAvailableEntries | src/MicroEngineer/UI/EditWindowsController.cs:99-115 | the selection is cleared and Add disabled; the list is empty without a category and otherwise the entries of that category; its frame is the available list, its selection and Add only |
| EditWindows.EditWindowsController.SelectAvailable | src/MicroEngineer/UI/EditWindowsController.cs:136-146 | the control becomes the one selected and Add is enabled; nothing else changes (frame: the available selection and Add) |
| EditWindows.EditWindowsController.UnselectAvailable | src/MicroEngineer/UI/EditWindowsController.cs:152-160 | the selection is cleared only if it was that control; Add is disabled; nothing else changes (frame: the available selection and Add) |
| EditWindows.EditWindowsController.SelectInstalled | src/MicroEngineer/UI/EditWindowsController.cs:212-222 | the control becomes the one selected and Remove is enabled; nothing else changes (frame: the installed selection and Remove) |
| EditWindows.EditWindowsController.UnselectInstalled | src/MicroEngineer/UI/EditWindowsController.cs:224-232 | the selection is cleared only if it was that control; Remove is disabled; nothing else changes (frame: the installed selection and Remove) |
| EditWindows.EditWindowsController.AddEntryToSelectedWindow | src/MicroEngineer/UI/EditWindowsController.cs:290-297 | an out-of-range id throws; otherwise a fresh instance of the entry's class is appended to the selected window, the available selection is cleared, and the window is shown again (throwing without a selection). Of the window only its entry list can change, and of the controller only the available selection, Add and the right-hand fields |
| EditWindows.EditWindowsController.AddSelectedEntry | src/MicroEngineer/UI/EditWindowsController.cs:72 | the Add button appends a fresh copy of the selected entry; with no selection, the null entry throws and nothing changes; the window's name, abbreviation and flags and the available list are outside its frame |
| EditWindows.EditWindowsController.OnAvailableEntryClicked | src/MicroEngineer/UI/EditWindowsController.cs:117-130 | a left click selects another control, adds the entry on a second click within 0.5 s, and otherwise unselects; the click time is always recorded; the available list and the window's other fields are outside its frame |
| EditWindows.EditWindowsController.RemoveEntryFromInstalledWindow | src/MicroEngineer/UI/EditWindowsController.cs:299-305 | the selected entry leaves the selected window, which is shown again; with no selection the window, the installed list and the right-hand fields stay as they were and clearing the selection throws; the available side is outside its frame |
| EditWindows.EditWindowsController.OnInstalledEntryClicked | src/MicroEngineer/UI/EditWindowsController.cs:197-210 | the same click rule, removing on a double click; the available list, its selection and Add are outside its frame |
| EditWindows.EditWindowsController.SelectPreviousWindow | src/MicroEngineer/UI/EditWindowsController.cs:234-242 | the id wraps backwards and the right-hand side shows the new window as `ResetSelectedWindow` does, including its throw paths; the click time and the available side are outside its frame |
| EditWindows.EditWindowsController.SelectNextWindow | src/MicroEngineer/UI/EditWindowsController.cs:244-252 | the id wraps forwards and the right-hand side shows the new window as `ResetSelectedWindow` does, including its throw paths; the click time and the available side are outside its frame |
| EditWindows.EditWindowsController.MoveEntryUp | src/MicroEngineer/UI/EditWindowsController.cs:254-270 | with no selection or at the top nothing changes; otherwise the entry swaps with the one above and stays selected; of the window only its entry list is in the frame |
| EditWindows.EditWindowsController.MoveEntryDown | src/MicroEngineer/UI/EditWindowsController.cs:272-288 | with no selection or at the bottom nothing changes; otherwise the entry swaps with the one below and stays selected; of the window only its entry list is in the frame |
| EditWindows.EditWindowsController.CreateNewWindow | src/MicroEngineer/UI/EditWindowsController.cs:319-324 | a fresh deletable, active, unlocked, empty window named after the first unused custom number is appended to both lists and becomes the selected window, its name shown; of the manager only the window list is in the frame |
| EditWindows.EditWindowsController.DeleteDeletableWindow | src/MicroEngineer/UI/EditWindowsController.cs:326-336 | a deletable selected window leaves both lists and the id decreases (to −1 from 0); a non-deletable one leaves both lists alone; the manager's entries and timestamp, the available side and the click time are outside its frame |
| EditWindows.EditWindowsController.LockUnlockWindow | src/MicroEngineer/UI/EditWindowsController.cs:338-345 | the lock takes the new value; locking activates the window, and unlocking leaves activity as it was; only the window's lock and flight-active flag are in the frame |
| EditWindows.EditWindowsController.RenameWindow | src/MicroEngineer/UI/EditWindowsController.cs:313-317 | the selected window takes the new name; an out-of-range id throws; only the window's name is in the frame |
| EditWindows.IncreaseDecimalDigits | src/MicroEngineer/UI/EditWindowsController.cs:347-352 | the digit count goes up by one and the buttons follow the decimal-button rule |
| EditWindows.DecreaseDecimalDigits | src/MicroEngineer/UI/EditWindowsController.cs:354-359 | the digit count goes down by one and the buttons follow the decimal-button rule |
| EntryWindows.TitleButtons | src/MicroEngineer/UI/EntryWindowController.cs:90-98 | pop-out shown exactly when docked; close shown exactly when popped out and unlocked |
| EntryWindows.TitleButtonsExclusive | src/MicroEngineer/UI/EntryWindowController.cs:90-98 | never both buttons, and an unlocked window always has one |
| EntryWindows.PopOutOrClose | src/MicroEngineer/UI/EntryWindowController.cs:202-208 | the pop-out flag flips; popping out activates, docking keeps activity |
| EntryWindows.PopOutTwice | src/MicroEngineer/UI/EntryWindowController.cs:202-208 | two presses restore the pop-out flag and leave the window active |
| EntryWindows.ManeuverSections | src/MicroEngineer/UI/EntryWindowController.cs:334-340 | header exactly from two nodes, footer exactly from one |
| EntryWindows.HeaderImpliesFooter | src/MicroEngineer/UI/EntryWindowController.cs:334-340 | the header never shows without the footer |
| EntryWindows.NodeHeader | src/MicroEngineer/UI/EntryWindowController.cs:342-357 | the label is "Node #" and index+1; previous disabled exactly at 0, next exactly from count−1 |
| EntryWindows.NodeHeaderUsable | src/MicroEngineer/UI/EntryWindowController.cs:342-357 | when the header shows and a node is selected, one arrow is enabled and the number is positive |
| EntryWindows.EntryControl.HandleEntryValueChanged | src/MicroEngineer/UI/EntryWindowController.cs:245-258 | value and unit are shown; an entry that hides without data is hidden exactly on "-" or ""; others keep their visibility |
| EntryWindows.ToggleAltUnit | src/MicroEngineer/UI/EntryWindowController.cs:260-267 | the unit flips only on a click within 0.5 s of the last one; the click time is always recorded |
| EntryWindows.EntryWindowController.constructor | src/MicroEngineer/UI/EntryWindowController.cs:38-64 | title buttons follow the pop-out and lock rule, settings shows exactly for editable windows, and the window is expanded exactly when active |
| EntryWindows.EntryWindowController.ExpandOrCollapse | src/MicroEngineer/UI/EntryWindowController.cs:166-190 | header, body and footer show exactly when active, with the maneuver rules for a maneuver window; outside an active maneuver window the node label and arrows stay as they were, and the title buttons are outside its frame |
| EntryWindows.EntryWindowController.OnTitleClick | src/MicroEngineer/UI/EntryWindowController.cs:192-200 | activity flips and the window expands or collapses to match; of the window only the flight-active flag is in the frame, and the title buttons are outside it |
| EntryWindows.EntryWindowController.OnPopOutOrCloseButton | src/MicroEngineer/UI/EntryWindowController.cs:202-215 | the window's flags follow the pop-out rule; only the pop-out and flight-active flags are in the frame |
| EntryWindows.EntryWindowController.CheckIfManeuverHeaderAndFooterShouldBeHidden | src/MicroEngineer/UI/EntryWindowController.cs:334-340 | header and footer follow the node count; only they are in the frame |
| EntryWindows.EntryWindowController.UpdateManeuverNodeHeader | src/MicroEngineer/UI/EntryWindowController.cs:342-357 | label and arrows follow the selected node; only they are in the frame |
| LegacyUi.SectionTogglesSpec | MicroEngineerProject/MicroEngineer/Managers/UI.cs:233 | the toggles are exactly the windows other than MainGui and StageInfoOAB |
| LegacyUi.ToggleRows | MicroEngineerProject/MicroEngineer/Managers/UI.cs:229-243 | the rows hold every toggle once, in order, six to a row, with only the last row partly filled; with no toggles there is one empty row |
| LegacyUi.DockedSectionsSpec | MicroEngineerProject/MicroEngineer/Managers/UI.cs:257-269 | a window is drawn docked exactly when active, not popped out, not MainGui/Settings/Stage, and not a target or maneuver window without one |
| LegacyUi.NoTargetNoTargetSection | MicroEngineerProject/MicroEngineer/Managers/UI.cs:264-265 | without a target no target window is drawn docked |
| LegacyUi.DrawnEntriesSpec | MicroEngineerProject/MicroEngineer/Managers/UI.cs:275-280 | an entry is drawn exactly when it is in the section and not hidden (hides without data and shows "-"); never more entries than the section has |
| LegacyUi.DrawnEntriesAllShown | MicroEngineerProject/MicroEngineer/Managers/UI.cs:308-313 | with no hidden entry the section draws all its entries, in order |
| LegacyUi.DrawEntries | MicroEngineerProject/MicroEngineer/Managers/UI.cs:308-313 | the entry loop draws the visible entries |
| LegacyUi.MaxTwrSpec | MicroEngineerProject/MicroEngineer/Managers/UI.cs:363 | `Max(TWRActual)` is some stage's TWR and no stage exceeds it |
| LegacyUi.TwrFormat | MicroEngineerProject/MicroEngineer/Managers/UI.cs:363-374 | "N1" exactly when the floored TWR has three digits, "N0" exactly with four, "N2" otherwise |
| LegacyUi.DrawStages | MicroEngineerProject/MicroEngineer/Managers/UI.cs:352-389 | no list or an empty one draws nothing; otherwise the format of the highest TWR and the stage rows |
| LegacyUi.DrawStageRows | MicroEngineerProject/MicroEngineer/Managers/UI.cs:376-386 | the backwards loop draws the rows of the stages with delta-v, last first, numbered count − stage |
| LegacyUi.StageRowsMatchStageTable | MicroEngineerProject/MicroEngineer/Managers/UI.cs:376-386 | the rows drawn here carry the same stages, order and numbers as the flight stage table |
| LegacyUi.StageRowsSound | MicroEngineerProject/MicroEngineer/Managers/UI.cs:380 | every drawn stage comes from the list and has more than 0.0001 delta-v in vacuum or at sea level |
| LegacyUi.SectionPopOut | MicroEngineerProject/MicroEngineer/Managers/UI.cs:396 | a locked popped-out section stays out; an unlocked one docks exactly on close; a docked one pops out exactly on the arrow |
| LegacyUi.StagesPopOut | MicroEngineerProject/MicroEngineer/Managers/UI.cs:410 | the stage header ignores the lock: popped out it docks on close, docked it pops out on the arrow |
| LegacyUi.SectionPopOutMatchesFlightWindow | MicroEngineerProject/MicroEngineer/Managers/UI.cs:396 | for an unlocked section, clicking its button flips the pop-out flag as the flight window's button does |
| LegacyUi.PreviousCategory | MicroEngineerProject/MicroEngineer/Managers/UI.cs:578-583 | the category with the previous value, wrapping from Vessel to OAB |
| LegacyUi.NextCategory | MicroEngineerProject/MicroEngineer/Managers/UI.cs:585-590 | the category with the next value, wrapping from OAB to Vessel |
| LegacyUi.CategoryArrowsInverse | MicroEngineerProject/MicroEngineer/Managers/UI.cs:578-590 | "<" undoes ">" and ">" undoes "<" |
| LegacyUi.ToggleTooltip | MicroEngineerProject/MicroEngineer/Managers/UI.cs:597-608 | the tooltip moves to the pressed index, and is shown unless that index was the one already shown |
| LegacyUi.ToggleTooltipTwice | MicroEngineerProject/MicroEngineer/Managers/UI.cs:597-608 | two presses of the same "?" toggle the description back |
| LegacyUi.EditableOfRemoveFirst | MicroEngineerProject/MicroEngineer/Managers/UI.cs:526-527 | removing an editable window from the window list removes it, and only it, from the editable list |
| LegacyUi.EditWindowState.constructor | MicroEngineerProject/MicroEngineer/Managers/UI.cs:26-29 | the edit window starts closed, on window 0 and category Vessel, with no tooltip |
| LegacyUi.EditWindowState.PreviousWindowButton | MicroEngineerProject/MicroEngineer/Managers/UI.cs:499-502 | the id wraps backwards over the editable windows |
| LegacyUi.EditWindowState.NextWindowButton | MicroEngineerProject/MicroEngineer/Managers/UI.cs:508-511 | the id wraps forwards over the editable windows |
| LegacyUi.EditWindowState.PreviousCategoryButton | MicroEngineerProject/MicroEngineer/Managers/UI.cs:578-583 | the selected category steps back with wrap-around |
| LegacyUi.EditWindowState.NextCategoryButton | MicroEngineerProject/MicroEngineer/Managers/UI.cs:585-590 | the selected category steps forward with wrap-around |
| LegacyUi.EditWindowState.TooltipButton | MicroEngineerProject/MicroEngineer/Managers/UI.cs:597-608 | the tooltip state follows the toggle rule |
| LegacyUi.EditWindowState.DeleteWindowButton | MicroEngineerProject/MicroEngineer/Managers/UI.cs:522-530 | an out-of-range id throws; a deletable window leaves the window list and the editable list, and the id decreases, staying in range unless it was 0; otherwise nothing changes; of the manager only the window list is in the frame |

## Left out

- Drawing, styles, asset loading, visual-tree construction and screen clamping are not modelled. Only the decisions behind them are.
- Saving the layout and rebuilding the flight interface after an edit are file and widget I/O. The edit methods end where the source calls them.
- `LoadLayout` takes the deserialized list as a parameter, so reading and parsing the file are outside the model. Its closing call to `SettingsWindow.LoadSettings` is configuration binding and is left out.
- `EntryWindow.cs`, `BaseWindow.cs` and `BaseEntry.cs` are not part of this model.
  - `IsEditable` is taken as "not MainGui, Settings, Stage or StageInfoOAB", following the comment at UI.cs:490.
  - `IsDeletable` is taken as "tag None".
  - `AddEntry`, `RemoveEntry` and `MoveEntryUp`/`MoveEntryDown` are taken as append, remove-first and swap-with-neighbour.
  - `e is T` is taken as equality of class names.
- `TimeParsed.MaxValue()` and `MinValue()` are given as parameters, because their definitions are not part of this model.
- Floating point is modelled with reals. Single-precision rounding, NaN, and `Log10` rounding near powers of ten are not modelled. `Utility.ParseDegreesToDMSFormat` follows `TimeSpan.FromHours`, which rounds to the nearest millisecond.
- Host physics are function parameters, whatever the engine and atmosphere code computes:
  - sea-level TWR and delta-v of a stage;
  - the torque magnitude of a cross product.
- The OAB stage keeps the host report as `retrieved`, instead of copying the ISP, thrust, exhaust velocity, separation and stage-mass fields one by one.
- `Utility.BiomeToString`: requires a non-empty name, because an enum name is never empty (the source's `Substring(0, 1)` would throw on one).
- `Utility.ScienceRegionToString` and `Utility.RemoveAllIgnoringCase`: require a non-empty body name, because celestial body names are never empty (.NET's `Replace` throws on an empty pattern).
- `Managers.Manager.CreateCustomWindow`: names the new window with the first unused id (`Managers.FirstUnusedCustomId`), the corrected behaviour. The source's single pass (`Managers.CustomNameIdAsWritten`) can repeat an existing name; see Findings.
- `Utility.ParseSecondsToTimeFormat`: computes the true calendar split. The source's 32-bit `years * 9201600` wraps from 234 game years on (`Utility.DaysAsWritten`); see Findings.
- `MicroEntryCategory` is declared in a file that is not part of this model. `Windows.Category` assumes its order is Vessel, Orbital, Surface, Flight, Target, Maneuver, Stage, Misc, OAB. That order decides where the category arrows of the legacy interface wrap (UI.cs:582 wraps to the last member).
- `Text.ToLower`, `Text.ToUpper` and `Text.EqualsIgnoringCase` fold ASCII letters only. .NET's `ToLower`/`ToUpper` are culture-sensitive and `OrdinalIgnoreCase` folds all of Unicode. The two agree on the ASCII enum, body and region names the game uses.
- `Utility.SituationToString`, `Utility.ScienceSituationToString`: the exact label strings are fixed by the round-trip lemmas `Utility.SituationLabelsDistinct` and `Utility.ScienceSituationLabelsDistinct`, which read each label back through `Utility.SituationFromString` / `Utility.ScienceSituationFromString`; those readers compare against the literal labels, so each label is pinned exactly, though no single contract lists them.
- `EditWindows.EditWindowsController.RenameWindow` covers the window name only. `RenameEntry` (EditWindowsController.cs:307-311) only assigns the typed name to the entry and is left out.
- The legacy "NEW WINDOW" button (UI.cs:531-532) calls the same `CreateCustomWindow` as the newer controller. It is modelled once, in `Managers.Manager.CreateCustomWindow` and `EditWindows.EditWindowsController.CreateNewWindow`.
- Legacy UI writes that copy a widget's value straight into a window are not modelled:
  - the abbreviation and name text fields, and the "Locked" toggle, of the edit window (UI.cs:503-519);
  - each section toggle's value into the window's flight-active flag (UI.cs:241). `LegacyUi.ToggleRows` models only which toggles appear and how they are laid out.
- Widget callbacks triggered by assigning a toggle's value (`LockWindow.value`) are not modelled.
- `LegacyUi.DrawStages` receives the "Stage Info" entry's value directly. A layout without that entry would throw at UI.cs:358; that case is not modelled.
- The unit symbols `Units.SymbolUnits` and `Units.SymbolTonne` are enumeration values, because their text is not part of this model.
- Number formatting (`N2`, `F2`, `{0:00}`) is modelled as the choice of format, not the rendered text.
- `VesselEntries.MassValue`, `VesselEntries.DryMassValue` and `VesselEntries.FuelMassValue` use the host's tonnes as given. Reading the active vessel is outside the model.
- Coroutines, message-bus subscriptions, keybinds, plugin lifecycle, the orbit closest-approach search and the host-reading `RefreshData` bodies are outside the modelled logic.

## Findings

| source | as written | input that shows it | evidently intended | confidence | as-written member | corrected member |
|---|---|---|---|---|---|---|
| src/MicroEngineer/Utilities/Utility.cs:89-90 | `years * 9201600` is a 32-bit `int` product, which wraps from 234 years on | 2,153,174,400 s (234 game years): the days come out as 198841 | days 0, and days always in [0, 426) | not executed | Utility.DaysOverflowAt234Years | Utility.Decompose |
| src/MicroEngineer/Managers/Manager.cs:310-316 | one pass over the editable windows, counting up when the current name equals "Custom"+id | windows named "Custom2", "Custom1": the pass ends at 2 and the new window repeats "Custom2" | the first integer whose "Custom" name is unused, as the comment at line 310 says | not executed | Managers.AsWrittenRepeatsName | Managers.FirstUnusedCustomId |
