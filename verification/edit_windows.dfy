/**
 * The edit-windows dialog (`EditWindowsController`): which editable window is selected,
 * which available and installed entry is selected, and the buttons that add, remove,
 * move, and reformat entries and that create, delete and lock windows.
 *
 * A list control is identified by its position in the list it was built from: the
 * controls are rebuilt, and their selection cleared, whenever that list changes.
 */
module EditWindows {
  import opened Wrappers
  import Windows
  import Managers

  /** `SelectPreviousWindow`: one back, from the first to the last. */
  function PreviousWindowId(id: int, count: int): (r: int)
    ensures 0 <= id < count ==> 0 <= r < count
    ensures 0 < id ==> r == id - 1
  {
    if id > 0 then id - 1 else count - 1
  }

  /** `SelectNextWindow`: one forward, from the last to the first. */
  function NextWindowId(id: int, count: int): (r: int)
    ensures 0 <= id < count ==> 0 <= r < count
    ensures id < count - 1 ==> r == id + 1
  {
    if id < count - 1 then id + 1 else 0
  }

  /** The arrows undo each other on every valid selection. */
  lemma PreviousUndoesNext(id: int, count: int)
    requires 0 <= id < count
    ensures PreviousWindowId(NextWindowId(id, count), count) == id
    ensures NextWindowId(PreviousWindowId(id, count), count) == id
  {
  }

  /**
   * `k` presses of ">" move `k` places forward, wrapping once past the end; so `count`
   * presses come back to the starting window.
   */
  lemma {:induction false} NextCycles(id: int, count: int, k: nat)
    requires 0 <= id < count && k <= count
    ensures Iterate(id, count, k) == if id + k < count then id + k else id + k - count
  {
    if k > 0 {
      NextCycles(id, count, k - 1);
    }
  }

  /** `k` presses of ">" from `id`. */
  function Iterate(id: int, count: int, k: nat): int
  {
    if k == 0 then id else NextWindowId(Iterate(id, count, k - 1), count)
  }

  /**
   * `CheckIfDecimalButtonsShouldBeEnabled`: whether "+" and "-" are enabled for an
   * entry. Entries without a number format have both disabled.
   */
  function DecimalButtons(formatting: Option<string>, digits: int): (enabled: (bool, bool))
    ensures enabled.0 <==> formatting.Some? && digits < 5
    ensures enabled.1 <==> formatting.Some? && digits > 0
  {
    if formatting.None? then (false, false) else (digits < 5, digits > 0)
  }

  /** Pressing only enabled buttons keeps the digit count within [0, 5]. */
  lemma DigitsStayInRange(formatting: Option<string>, digits: int)
    requires 0 <= digits <= 5
    ensures DecimalButtons(formatting, digits).0 ==> 0 <= digits + 1 <= 5
    ensures DecimalButtons(formatting, digits).1 ==> 0 <= digits - 1 <= 5
  {
  }

  /** The entries of a category, in master-list order (`Entries.FindAll`). */
  function OfCategory(es: seq<Windows.Entry>, c: Windows.Category): (r: seq<Windows.Entry>)
    ensures forall i :: 0 <= i < |r| ==> r[i] in es && r[i].category == c
    ensures forall i :: 0 <= i < |es| && es[i].category == c ==> es[i] in r
    ensures |r| <= |es|
  {
    if es == [] then []
    else (if es[0].category == c then [es[0]] else []) + OfCategory(es[1..], c)
  }

  /**
   * Filtering keeps master-list order: the entries of a category in a joined list are
   * those of the first part followed by those of the second.
   */
  lemma {:induction false} OfCategoryAppend(a: seq<Windows.Entry>, b: seq<Windows.Entry>, c: Windows.Category)
    ensures OfCategory(a + b, c) == OfCategory(a, c) + OfCategory(b, c)
    decreases |a|
  {
    if a == [] {
      assert a + b == b;
    } else {
      assert (a + b)[0] == a[0];
      assert (a + b)[1..] == a[1..] + b;
      OfCategoryCons(a + b, c);
      OfCategoryCons(a, c);
      OfCategoryAppend(a[1..], b, c);
      JoinAfterHead(OfCategory(a + b, c), OfCategory(a, c), if a[0].category == c then [a[0]] else [],
        OfCategory(a[1..], c), OfCategory(b, c));
    }
  }

  /** One step of the filter: the first entry, if kept, comes before the rest. */
  lemma OfCategoryCons(es: seq<Windows.Entry>, c: Windows.Category)
    requires es != []
    ensures OfCategory(es, c) == (if es[0].category == c then [es[0]] else []) + OfCategory(es[1..], c)
  {
  }

  /** Sequence bookkeeping for one step of `OfCategoryAppend`. */
  lemma JoinAfterHead<T>(whole: seq<T>, first: seq<T>, head: seq<T>, middle: seq<T>, last: seq<T>)
    requires whole == head + (middle + last)
    requires first == head + middle
    ensures whole == first + last
  {
  }

  /** A single entry is listed exactly when it is of the category. */
  lemma OfCategorySingle(e: Windows.Entry, c: Windows.Category)
    ensures OfCategory([e], c) == if e.category == c then [e] else []
  {
    assert [e][1..] == [];
  }

  /** The entries of a window up to its first null one (the installed list a rebuild gets to). */
  function UpToNull(s: seq<Windows.Entry?>): (r: seq<Windows.Entry?>)
    ensures null !in r
    ensures null !in s ==> r == s
    ensures r <= s
  {
    if s == [] || s[0] == null then [] else [s[0]] + UpToNull(s[1..])
  }

  /** A loop that stops at the first null entry, or at the end, has built `UpToNull`. */
  lemma {:induction false} UpToNullPrefix(s: seq<Windows.Entry?>, i: nat)
    requires i <= |s| && null !in s[..i]
    requires i == |s| || s[i] == null
    ensures UpToNull(s) == s[..i]
    decreases i
  {
    if i > 0 {
      assert s[0] == s[..i][0];
      assert s[1..][..i - 1] == s[1..i];
      UpToNullPrefix(s[1..], i - 1);
      assert s[..i] == [s[0]] + s[1..i];
    }
  }

  /** The list with the elements at `i` and `i + 1` exchanged. */
  function SwapWithNext<T>(s: seq<T>, i: nat): (r: seq<T>)
    requires i + 1 < |s|
    ensures |r| == |s| && r[i] == s[i + 1] && r[i + 1] == s[i]
    ensures forall k :: 0 <= k < |s| && k != i && k != i + 1 ==> r[k] == s[k]
    ensures multiset(r) == multiset(s)
  {
    s[i := s[i + 1]][i + 1 := s[i]]
  }

  class EditWindowsController {
    /** `_editableWindows`, the list shared with the manager. */
    const editable: Windows.WindowList
    const manager: Managers.Manager
    var selectedWindowId: int
    /** The text box that shows the selected window's name. */
    var selectedWindowName: string
    /** The entries listed on the left, for the chosen category. */
    var available: seq<Windows.Entry>
    var selectedAvailable: Option<nat>
    /** The entries listed on the right, those of the selected window. */
    var installed: seq<Windows.Entry?>
    var selectedInstalled: Option<nat>
    var timeOfLastClick: real
    var addEntryEnabled: bool
    var removeEntryEnabled: bool
    var deleteWindowEnabled: bool
    var lockWindowValue: bool

    /**
     * What the handlers keep: a selection points into its list, "Add" and "Remove" are
     * enabled exactly while something is selected, and the right list shows the selected
     * window.
     */
    predicate Valid()
      reads this, editable, editable.items
    {
      && (selectedAvailable.Some? ==> selectedAvailable.value < |available|)
      && (addEntryEnabled <==> selectedAvailable.Some?)
      && (selectedInstalled.Some? ==> selectedInstalled.value < |installed|)
      && (removeEntryEnabled <==> selectedInstalled.Some?)
      && 0 <= selectedWindowId < |editable.items|
      && installed == editable.items[selectedWindowId].entries
      && null !in installed
    }

    /** The right-hand side shows the selected window as a fresh rebuild leaves it. */
    predicate ShowsSelectedWindow()
      reads this, editable, editable.items
    {
      && 0 <= selectedWindowId < |editable.items|
      && var w := editable.items[selectedWindowId];
      && selectedWindowName == w.name
      && installed == w.entries && null !in installed
      && selectedInstalled.None? && !removeEntryEnabled
      && deleteWindowEnabled == w.IsDeletable() && lockWindowValue == w.isLocked
    }

    /** The selected window, as the set a handler may change (empty when the selection is outside the list). */
    function SelectedWindowSet(): set<Windows.Window>
      reads this, editable
    {
      if 0 <= selectedWindowId < |editable.items| then {editable.items[selectedWindowId]} else {}
    }

    /**
     * `StartInitialization`: take the editable list and show the window chosen by the
     * caller, as `ResetSelectedWindow` does; nothing on the left is listed or selected.
     */
    constructor (editable: Windows.WindowList, manager: Managers.Manager, selectedWindowId: int)
      ensures this.editable == editable && this.manager == manager
      ensures this.selectedWindowId == selectedWindowId
      ensures available == [] && selectedAvailable.None? && !addEntryEnabled
      ensures selectedInstalled.None? && !removeEntryEnabled
      ensures !(0 <= selectedWindowId < |editable.items|) ==> installed == []
      ensures 0 <= selectedWindowId < |editable.items| ==>
        var w := editable.items[selectedWindowId];
        selectedWindowName == w.name && installed == UpToNull(w.entries)
      ensures (0 <= selectedWindowId < |editable.items| && null !in editable.items[selectedWindowId].entries)
        ==> Valid() && ShowsSelectedWindow()
    {
      this.editable, this.manager, this.selectedWindowId := editable, manager, selectedWindowId;
      selectedWindowName := "";
      available, selectedAvailable := [], None;
      installed, selectedInstalled := [], None;
      timeOfLastClick := 0.0;
      addEntryEnabled, removeEntryEnabled := false, false;
      deleteWindowEnabled, lockWindowValue := false, false;
      new;
      var _ := ResetSelectedWindow();
    }

    /**
     * `ResetSelectedWindow`: show the selected window's name, entries and flags. A
     * selection outside the list throws first; a null entry throws while the list is
     * rebuilt.
     */
    method ResetSelectedWindow() returns (outcome: Option<Failure>)
      modifies this`selectedWindowName, this`installed, this`selectedInstalled,
        this`removeEntryEnabled, this`deleteWindowEnabled, this`lockWindowValue
      ensures available == old(available) && selectedAvailable == old(selectedAvailable)
      ensures addEntryEnabled == old(addEntryEnabled) && timeOfLastClick == old(timeOfLastClick)
      ensures selectedWindowId == old(selectedWindowId)
      ensures !(0 <= selectedWindowId < |editable.items|) ==>
        outcome == Some(ArgumentOutOfRange) && unchanged(this)
      ensures 0 <= selectedWindowId < |editable.items| ==>
        var w := editable.items[selectedWindowId];
        && selectedWindowName == w.name
        && installed == UpToNull(w.entries) && selectedInstalled.None?
        && (outcome.Some? <==> null in w.entries)
        && (outcome.Some? ==>
              && outcome.value == NullReference && removeEntryEnabled == old(removeEntryEnabled)
              && deleteWindowEnabled == old(deleteWindowEnabled) && lockWindowValue == old(lockWindowValue))
        && (outcome.None? ==>
              !removeEntryEnabled && deleteWindowEnabled == w.IsDeletable() && lockWindowValue == w.isLocked)
      ensures outcome.None? ==> ShowsSelectedWindow()
    {
      if !(0 <= selectedWindowId < |editable.items|) {
        return Some(ArgumentOutOfRange);
      }
      var w := editable.items[selectedWindowId];
      selectedWindowName := w.name;
      outcome := BuildInstalledEntries();
      if outcome.Some? {
        return;
      }
      removeEntryEnabled := false;
      deleteWindowEnabled := w.IsDeletable();
      lockWindowValue := w.isLocked;
    }

    /**
     * `BuildInstalledEntries`: clear the right-hand list and its selection, then add the
     * selected window's entries one by one; reading the name of a null entry throws,
     * leaving the entries before it listed.
     */
    method BuildInstalledEntries() returns (outcome: Option<Failure>)
      requires 0 <= selectedWindowId < |editable.items|
      modifies this`installed, this`selectedInstalled
      ensures selectedWindowId == old(selectedWindowId) && selectedWindowName == old(selectedWindowName)
      ensures var entries := editable.items[selectedWindowId].entries;
        && installed == UpToNull(entries) && selectedInstalled.None?
        && (outcome.Some? <==> null in entries)
        && (outcome.Some? ==> outcome.value == NullReference)
      ensures available == old(available) && selectedAvailable == old(selectedAvailable)
      ensures addEntryEnabled == old(addEntryEnabled) && removeEntryEnabled == old(removeEntryEnabled)
      ensures deleteWindowEnabled == old(deleteWindowEnabled) && lockWindowValue == old(lockWindowValue)
      ensures timeOfLastClick == old(timeOfLastClick)
    {
      installed, selectedInstalled := [], None;
      var entries := editable.items[selectedWindowId].entries;
      for i := 0 to |entries|
        invariant installed == entries[..i] && null !in entries[..i]
        invariant selectedInstalled.None?
      {
        if entries[i] == null {
          UpToNullPrefix(entries, i);
          return Some(NullReference);
        }
        installed := installed + [entries[i]];
        assert entries[..i + 1] == entries[..i] + [entries[i]];
      }
      assert entries[..|entries|] == entries;
      UpToNullPrefix(entries, |entries|);
      outcome := None;
    }

    /** `BuildAvailableEntries`: list the master entries of the chosen category (none chosen: empty). */
    method BuildAvailableEntries(category: Option<Windows.Category>)
      modifies this`available, this`selectedAvailable, this`addEntryEnabled
      ensures selectedAvailable.None? && !addEntryEnabled
      ensures available == if category.None? then [] else OfCategory(manager.entries, category.value)
      ensures installed == old(installed) && selectedInstalled == old(selectedInstalled)
      ensures removeEntryEnabled == old(removeEntryEnabled) && selectedWindowId == old(selectedWindowId)
    {
      available := [];
      selectedAvailable, addEntryEnabled := None, false;
      if category.None? {
        return;
      }
      available := OfCategory(manager.entries, category.value);
    }

    /** `SelectAvailable`: the clicked control becomes the only selected one. */
    method SelectAvailable(control: nat)
      requires control < |available|
      modifies this`selectedAvailable, this`addEntryEnabled
      ensures selectedAvailable == Some(control) && addEntryEnabled
      ensures available == old(available) && installed == old(installed)
      ensures selectedInstalled == old(selectedInstalled) && removeEntryEnabled == old(removeEntryEnabled)
      ensures selectedWindowId == old(selectedWindowId) && timeOfLastClick == old(timeOfLastClick)
    {
      selectedAvailable := Some(control);
      addEntryEnabled := true;
    }

    /** `UnselectAvailable`: drop the selection if it is this control; "Add" is disabled either way. */
    method UnselectAvailable(control: nat)
      modifies this`selectedAvailable, this`addEntryEnabled
      ensures selectedAvailable == if old(selectedAvailable) == Some(control) then None else old(selectedAvailable)
      ensures !addEntryEnabled
      ensures available == old(available) && installed == old(installed)
      ensures selectedInstalled == old(selectedInstalled) && removeEntryEnabled == old(removeEntryEnabled)
      ensures selectedWindowId == old(selectedWindowId) && timeOfLastClick == old(timeOfLastClick)
    {
      if selectedAvailable == Some(control) {
        selectedAvailable := None;
      }
      addEntryEnabled := false;
    }

    /** `SelectInstalled`. */
    method SelectInstalled(control: nat)
      requires control < |installed|
      modifies this`selectedInstalled, this`removeEntryEnabled
      ensures selectedInstalled == Some(control) && removeEntryEnabled
      ensures available == old(available) && installed == old(installed)
      ensures selectedAvailable == old(selectedAvailable) && addEntryEnabled == old(addEntryEnabled)
      ensures selectedWindowId == old(selectedWindowId) && timeOfLastClick == old(timeOfLastClick)
    {
      selectedInstalled := Some(control);
      removeEntryEnabled := true;
    }

    /** `UnselectInstalled`. */
    method UnselectInstalled(control: nat)
      modifies this`selectedInstalled, this`removeEntryEnabled
      ensures selectedInstalled == if old(selectedInstalled) == Some(control) then None else old(selectedInstalled)
      ensures !removeEntryEnabled
      ensures available == old(available) && installed == old(installed)
      ensures selectedAvailable == old(selectedAvailable) && addEntryEnabled == old(addEntryEnabled)
      ensures selectedWindowId == old(selectedWindowId) && timeOfLastClick == old(timeOfLastClick)
    {
      if selectedInstalled == Some(control) {
        selectedInstalled := None;
      }
      removeEntryEnabled := false;
    }

    /**
     * `AddEntryToSelectedWindow`: add a new entry of the same class to the selected
     * window, then clear the available selection and show the window again. Without an
     * available selection the clearing throws after the entry is added.
     */
    method AddEntryToSelectedWindow(entry: Windows.Entry) returns (outcome: Option<Failure>)
      modifies SelectedWindowSet()`entries, this`selectedAvailable, this`addEntryEnabled,
        this`selectedWindowName, this`installed, this`selectedInstalled,
        this`removeEntryEnabled, this`deleteWindowEnabled, this`lockWindowValue
      ensures selectedWindowId == old(selectedWindowId) && available == old(available)
      ensures !(0 <= selectedWindowId < |editable.items|) ==>
        outcome == Some(ArgumentOutOfRange) && selectedAvailable == old(selectedAvailable)
        && addEntryEnabled == old(addEntryEnabled)
      ensures 0 <= selectedWindowId < |editable.items| ==>
        var w := editable.items[selectedWindowId];
        && |w.entries| == |old(w.entries)| + 1 && w.entries[..|old(w.entries)|] == old(w.entries)
        && var e := w.entries[|w.entries| - 1];
        && e != null && fresh(e) && e.typeName == entry.typeName
        && e.numberOfDecimalDigits == entry.defaultDecimalDigits
        && selectedAvailable.None?
        && (old(selectedAvailable).None? ==> outcome == Some(NullReference))
        && (old(selectedAvailable).Some? && null !in old(w.entries) ==> outcome.None? && !addEntryEnabled)
      ensures outcome.None? ==> ShowsSelectedWindow()
    {
      if !(0 <= selectedWindowId < |editable.items|) {
        return Some(ArgumentOutOfRange);
      }
      var w := editable.items[selectedWindowId];
      var e := new Windows.Entry.FreshInstance(entry);
      w.entries := w.entries + [e];
      if selectedAvailable.None? {
        return Some(NullReference);
      }
      UnselectAvailable(selectedAvailable.value);
      outcome := ResetSelectedWindow();
    }

    /** The "Add" button: add the selected available entry (none selected: throws before anything changes). */
    method AddSelectedEntry() returns (outcome: Option<Failure>)
      requires Valid()
      modifies SelectedWindowSet()`entries, this`selectedAvailable, this`addEntryEnabled,
        this`selectedWindowName, this`installed, this`selectedInstalled,
        this`removeEntryEnabled, this`deleteWindowEnabled, this`lockWindowValue
      ensures old(selectedAvailable).None? ==>
        outcome == Some(NullReference) && unchanged(this) && unchanged(SelectedWindowSet())
      ensures old(selectedAvailable).Some? ==>
        var w := editable.items[old(selectedWindowId)];
        && outcome.None? && Valid() && selectedAvailable.None?
        && selectedWindowId == old(selectedWindowId)
        && |w.entries| == |old(w.entries)| + 1 && w.entries[..|old(w.entries)|] == old(w.entries)
        && w.entries[|w.entries| - 1] != null
        && w.entries[|w.entries| - 1].typeName == old(available[selectedAvailable.value]).typeName
    {
      if selectedAvailable.None? {
        return Some(NullReference);
      }
      outcome := AddEntryToSelectedWindow(available[selectedAvailable.value]);
    }

    /**
     * `OnAvailableEntryClicked`: a left click selects another control, adds the selected
     * one when it comes within half a second of the previous click, and otherwise
     * unselects it. Every click is timed.
     */
    method OnAvailableEntryClicked(leftButton: bool, control: nat, now: real) returns (outcome: Option<Failure>)
      requires Valid() && control < |available|
      modifies SelectedWindowSet()`entries, this`timeOfLastClick, this`selectedAvailable, this`addEntryEnabled,
        this`selectedWindowName, this`installed, this`selectedInstalled,
        this`removeEntryEnabled, this`deleteWindowEnabled, this`lockWindowValue
      ensures timeOfLastClick == now && selectedWindowId == old(selectedWindowId)
      ensures Valid()
      ensures outcome.None?
      ensures !leftButton ==>
        selectedAvailable == old(selectedAvailable) && installed == old(installed)
        && unchanged(SelectedWindowSet())
      ensures leftButton && old(selectedAvailable) != Some(control) ==>
        selectedAvailable == Some(control) && installed == old(installed) && unchanged(SelectedWindowSet())
      ensures leftButton && old(selectedAvailable) == Some(control) && now - old(timeOfLastClick) >= 0.5 ==>
        selectedAvailable.None? && installed == old(installed) && unchanged(SelectedWindowSet())
      ensures leftButton && old(selectedAvailable) == Some(control) && now - old(timeOfLastClick) < 0.5 ==>
        var w := editable.items[selectedWindowId];
        && selectedAvailable.None?
        && |w.entries| == |old(w.entries)| + 1 && w.entries[..|old(w.entries)|] == old(w.entries)
        && w.entries[|w.entries| - 1] != null
        && w.entries[|w.entries| - 1].typeName == old(available[control]).typeName
    {
      outcome := None;
      if leftButton {
        if selectedAvailable != Some(control) {
          SelectAvailable(control);
        } else if now - timeOfLastClick < 0.5 {
          outcome := AddEntryToSelectedWindow(available[control]);
        } else {
          UnselectAvailable(control);
        }
      }
      timeOfLastClick := now;
    }

    /**
     * `RemoveEntryFromInstalledWindow`: remove the selected entry from the selected
     * window and show it again. With nothing selected nothing is removed and clearing the
     * selection throws.
     */
    method RemoveEntryFromInstalledWindow() returns (outcome: Option<Failure>)
      requires Valid()
      modifies SelectedWindowSet()`entries,
        this`selectedWindowName, this`installed, this`selectedInstalled,
        this`removeEntryEnabled, this`deleteWindowEnabled, this`lockWindowValue
      ensures selectedWindowId == old(selectedWindowId) && available == old(available)
      ensures selectedAvailable == old(selectedAvailable)
      ensures old(selectedInstalled).None? ==>
        outcome == Some(NullReference) && unchanged(SelectedWindowSet())
        && installed == old(installed) && selectedInstalled.None?
        && selectedWindowName == old(selectedWindowName) && removeEntryEnabled == old(removeEntryEnabled)
        && deleteWindowEnabled == old(deleteWindowEnabled) && lockWindowValue == old(lockWindowValue)
      ensures old(selectedInstalled).Some? ==>
        var w := editable.items[selectedWindowId];
        && outcome.None? && Valid() && ShowsSelectedWindow()
        && w.entries == Windows.RemoveFirst(old(w.entries), old(installed[selectedInstalled.value]))
        && |w.entries| == |old(w.entries)| - 1
    {
      var w := editable.items[selectedWindowId];
      if selectedInstalled.None? {
        w.entries := Windows.RemoveFirst(w.entries, null);
        selectedInstalled := None;
        return Some(NullReference);
      }
      var entry := installed[selectedInstalled.value];
      w.entries := Windows.RemoveFirst(w.entries, entry);
      UnselectInstalled(selectedInstalled.value);
      outcome := ResetSelectedWindow();
    }

    /** `OnInstalledEntryClicked`: as for the available list, a quick second click removes the entry. */
    method OnInstalledEntryClicked(leftButton: bool, control: nat, now: real) returns (outcome: Option<Failure>)
      requires Valid() && control < |installed|
      modifies SelectedWindowSet()`entries, this`timeOfLastClick,
        this`selectedWindowName, this`installed, this`selectedInstalled,
        this`removeEntryEnabled, this`deleteWindowEnabled, this`lockWindowValue
      ensures timeOfLastClick == now && selectedWindowId == old(selectedWindowId)
      ensures Valid() && outcome.None?
      ensures !leftButton ==>
        selectedInstalled == old(selectedInstalled) && unchanged(SelectedWindowSet())
      ensures leftButton && old(selectedInstalled) != Some(control) ==>
        selectedInstalled == Some(control) && unchanged(SelectedWindowSet())
      ensures leftButton && old(selectedInstalled) == Some(control) && now - old(timeOfLastClick) >= 0.5 ==>
        selectedInstalled.None? && unchanged(SelectedWindowSet())
      ensures leftButton && old(selectedInstalled) == Some(control) && now - old(timeOfLastClick) < 0.5 ==>
        var w := editable.items[selectedWindowId];
        && selectedInstalled.None?
        && w.entries == Windows.RemoveFirst(old(w.entries), old(installed[control]))
    {
      outcome := None;
      if leftButton {
        if selectedInstalled != Some(control) {
          SelectInstalled(control);
        } else if now - timeOfLastClick < 0.5 {
          outcome := RemoveEntryFromInstalledWindow();
        } else {
          UnselectInstalled(control);
        }
      }
      timeOfLastClick := now;
    }

    /** `SelectPreviousWindow`: step the selection back, wrapping, and show that window. */
    method SelectPreviousWindow() returns (outcome: Option<Failure>)
      modifies this`selectedWindowId,
        this`selectedWindowName, this`installed, this`selectedInstalled,
        this`removeEntryEnabled, this`deleteWindowEnabled, this`lockWindowValue
      ensures selectedWindowId == PreviousWindowId(old(selectedWindowId), |editable.items|)
      ensures outcome.None? <==>
        0 <= selectedWindowId < |editable.items| && null !in editable.items[selectedWindowId].entries
      ensures outcome.None? ==> ShowsSelectedWindow()
      ensures 0 <= selectedWindowId < |editable.items| ==>
        var w := editable.items[selectedWindowId];
        && selectedWindowName == w.name && installed == UpToNull(w.entries) && selectedInstalled.None?
        && (outcome.Some? ==>
              && outcome.value == NullReference && removeEntryEnabled == old(removeEntryEnabled)
              && deleteWindowEnabled == old(deleteWindowEnabled) && lockWindowValue == old(lockWindowValue))
      ensures !(0 <= selectedWindowId < |editable.items|) ==>
        && outcome == Some(ArgumentOutOfRange)
        && selectedWindowName == old(selectedWindowName) && installed == old(installed)
        && selectedInstalled == old(selectedInstalled) && removeEntryEnabled == old(removeEntryEnabled)
        && deleteWindowEnabled == old(deleteWindowEnabled) && lockWindowValue == old(lockWindowValue)
      ensures available == old(available) && selectedAvailable == old(selectedAvailable)
      ensures addEntryEnabled == old(addEntryEnabled)
    {
      if selectedWindowId > 0 {
        selectedWindowId := selectedWindowId - 1;
      } else {
        selectedWindowId := |editable.items| - 1;
      }
      outcome := ResetSelectedWindow();
    }

    /** `SelectNextWindow`: step the selection forward, wrapping, and show that window. */
    method SelectNextWindow() returns (outcome: Option<Failure>)
      modifies this`selectedWindowId,
        this`selectedWindowName, this`installed, this`selectedInstalled,
        this`removeEntryEnabled, this`deleteWindowEnabled, this`lockWindowValue
      ensures selectedWindowId == NextWindowId(old(selectedWindowId), |editable.items|)
      ensures outcome.None? <==>
        0 <= selectedWindowId < |editable.items| && null !in editable.items[selectedWindowId].entries
      ensures outcome.None? ==> ShowsSelectedWindow()
      ensures 0 <= selectedWindowId < |editable.items| ==>
        var w := editable.items[selectedWindowId];
        && selectedWindowName == w.name && installed == UpToNull(w.entries) && selectedInstalled.None?
        && (outcome.Some? ==>
              && outcome.value == NullReference && removeEntryEnabled == old(removeEntryEnabled)
              && deleteWindowEnabled == old(deleteWindowEnabled) && lockWindowValue == old(lockWindowValue))
      ensures !(0 <= selectedWindowId < |editable.items|) ==>
        && outcome == Some(ArgumentOutOfRange)
        && selectedWindowName == old(selectedWindowName) && installed == old(installed)
        && selectedInstalled == old(selectedInstalled) && removeEntryEnabled == old(removeEntryEnabled)
        && deleteWindowEnabled == old(deleteWindowEnabled) && lockWindowValue == old(lockWindowValue)
      ensures available == old(available) && selectedAvailable == old(selectedAvailable)
      ensures addEntryEnabled == old(addEntryEnabled)
    {
      if selectedWindowId < |editable.items| - 1 {
        selectedWindowId := selectedWindowId + 1;
      } else {
        selectedWindowId := 0;
      }
      outcome := ResetSelectedWindow();
    }

    /**
     * The common tail of `MoveEntryUp` and `MoveEntryDown`: exchange the installed
     * entries at `i` and `i + 1`, rebuild the right-hand list and select `target`.
     */
    method SwapInstalled(i: nat, target: nat)
      requires Valid() && i + 1 < |installed| && (target == i || target == i + 1)
      modifies SelectedWindowSet()`entries,
        this`selectedWindowName, this`installed, this`selectedInstalled,
        this`removeEntryEnabled, this`deleteWindowEnabled, this`lockWindowValue
      ensures Valid() && selectedWindowId == old(selectedWindowId)
      ensures available == old(available) && selectedAvailable == old(selectedAvailable)
      ensures editable.items[selectedWindowId].entries == SwapWithNext(old(installed), i)
      ensures installed == SwapWithNext(old(installed), i) && selectedInstalled == Some(target)
    {
      var w := editable.items[selectedWindowId];
      w.entries := SwapWithNext(w.entries, i);
      assert null !in multiset(w.entries);
      var outcome := ResetSelectedWindow();
      assert outcome.None? && installed == w.entries;
      SelectInstalled(target);
    }

    /**
     * `MoveEntryUp`: move the selected installed entry one place up and keep it
     * selected. Nothing happens without a selection or at the top.
     */
    method MoveEntryUp()
      requires Valid()
      modifies SelectedWindowSet()`entries,
        this`selectedWindowName, this`installed, this`selectedInstalled,
        this`removeEntryEnabled, this`deleteWindowEnabled, this`lockWindowValue
      ensures Valid() && selectedWindowId == old(selectedWindowId)
      ensures available == old(available) && selectedAvailable == old(selectedAvailable)
      ensures old(selectedInstalled).None? || old(selectedInstalled) == Some(0) ==>
        selectedInstalled == old(selectedInstalled) && unchanged(SelectedWindowSet())
      ensures old(selectedInstalled).Some? && old(selectedInstalled).value > 0 ==>
        var i := old(selectedInstalled).value;
        && editable.items[selectedWindowId].entries == SwapWithNext(old(installed), i - 1)
        && selectedInstalled == Some(i - 1) && installed[i - 1] == old(installed[i])
    {
      if selectedInstalled.None? {
        return;
      }
      var index := selectedInstalled.value;
      assert index == old(selectedInstalled).value;
      if index == 0 {
        return;
      }
      SwapInstalled(index - 1, index - 1);
    }

    /**
     * `MoveEntryDown`: move the selected installed entry one place down and keep it
     * selected. Nothing happens without a selection or at the bottom.
     */
    method MoveEntryDown()
      requires Valid()
      modifies SelectedWindowSet()`entries,
        this`selectedWindowName, this`installed, this`selectedInstalled,
        this`removeEntryEnabled, this`deleteWindowEnabled, this`lockWindowValue
      ensures Valid() && selectedWindowId == old(selectedWindowId)
      ensures available == old(available) && selectedAvailable == old(selectedAvailable)
      ensures old(selectedInstalled).None? || old(selectedInstalled) == Some(|old(installed)| - 1) ==>
        selectedInstalled == old(selectedInstalled) && unchanged(SelectedWindowSet())
      ensures old(selectedInstalled).Some? && old(selectedInstalled).value < |old(installed)| - 1 ==>
        var i := old(selectedInstalled).value;
        && editable.items[selectedWindowId].entries == SwapWithNext(old(installed), i)
        && selectedInstalled == Some(i + 1) && installed[i + 1] == old(installed[i])
    {
      if selectedInstalled.None? {
        return;
      }
      var index := selectedInstalled.value;
      assert index == old(selectedInstalled).value;
      if index == |installed| - 1 {
        return;
      }
      SwapInstalled(index, index + 1);
    }

    /** `CreateNewWindow`: the manager adds a custom window to both lists; it becomes the selected one. */
    method CreateNewWindow() returns (outcome: Option<Failure>)
      modifies manager`windows, editable`items, this`selectedWindowId,
        this`selectedWindowName, this`installed, this`selectedInstalled,
        this`removeEntryEnabled, this`deleteWindowEnabled, this`lockWindowValue
      ensures |editable.items| == |old(editable.items)| + 1
      ensures editable.items[..|old(editable.items)|] == old(editable.items)
      ensures manager.windows == old(manager.windows) + [editable.items[|editable.items| - 1]]
      ensures selectedWindowId == |editable.items| - 1
      ensures fresh(editable.items[selectedWindowId]) && editable.items[selectedWindowId].IsDeletable()
      ensures
        var w := editable.items[selectedWindowId];
        && w.kind == Windows.EntryWindow && w.entries == [] && w.isFlightActive && !w.isLocked
        && exists n: nat :: n >= 1 && w.name == Managers.CustomName(n)
             && w.abbreviation == Managers.CustomAbbreviation(n)
             && Managers.CustomName(n) !in old(Managers.NamesOf(editable.items))
             && forall i :: 1 <= i < n ==> Managers.CustomName(i) in old(Managers.NamesOf(editable.items))
      ensures selectedWindowName == editable.items[selectedWindowId].name
      ensures outcome.None? && ShowsSelectedWindow() && installed == []
      ensures available == old(available) && selectedAvailable == old(selectedAvailable)
      ensures addEntryEnabled == old(addEntryEnabled)
    {
      selectedWindowId := manager.CreateCustomWindow(editable);
      outcome := ResetSelectedWindow();
    }

    /**
     * `DeleteDeletableWindow`: a deletable selected window leaves both the manager's
     * list and the editable list, and the selection moves one back (to -1 from the
     * first). Any other window stays.
     */
    method DeleteDeletableWindow() returns (outcome: Option<Failure>)
      modifies manager`windows, editable`items, this`selectedWindowId,
        this`selectedWindowName, this`installed, this`selectedInstalled,
        this`removeEntryEnabled, this`deleteWindowEnabled, this`lockWindowValue
      ensures !(0 <= old(selectedWindowId) < |old(editable.items)|) ==>
        outcome == Some(ArgumentOutOfRange) && unchanged(manager, editable)
        && selectedWindowId == old(selectedWindowId)
      ensures 0 <= old(selectedWindowId) < |old(editable.items)| ==>
        var w := old(editable.items[selectedWindowId]);
        && (w.IsDeletable() ==>
              && manager.windows == Windows.RemoveFirst(old(manager.windows), w)
              && editable.items == Windows.RemoveFirst(old(editable.items), w)
              && selectedWindowId == old(selectedWindowId) - 1)
        && (!w.IsDeletable() ==> unchanged(manager, editable) && selectedWindowId == old(selectedWindowId))
      ensures manager.entries == old(manager.entries)
      ensures outcome.None? ==> ShowsSelectedWindow()
    {
      if !(0 <= selectedWindowId < |editable.items|) {
        return Some(ArgumentOutOfRange);
      }
      var w := editable.items[selectedWindowId];
      if w.IsDeletable() {
        manager.windows := Windows.RemoveFirst(manager.windows, w);
        editable.items := Windows.RemoveFirst(editable.items, w);
        selectedWindowId := selectedWindowId - 1;
      }
      outcome := ResetSelectedWindow();
    }

    /** `LockUnlockWindow`: locking also shows the window in flight; unlocking leaves that as it was. */
    method LockUnlockWindow(newValue: bool) returns (outcome: Option<Failure>)
      modifies SelectedWindowSet()`isLocked, SelectedWindowSet()`isFlightActive
      ensures outcome.Some? <==> !(0 <= selectedWindowId < |editable.items|)
      ensures outcome.Some? ==> outcome.value == ArgumentOutOfRange
      ensures outcome.None? ==>
        var w := editable.items[selectedWindowId];
        && w.isLocked == newValue
        && w.isFlightActive == (newValue || old(w.isFlightActive))
        && w.entries == old(w.entries) && w.name == old(w.name) && w.isMapActive == old(w.isMapActive)
        && w.isFlightPoppedOut == old(w.isFlightPoppedOut) && w.isEditorActive == old(w.isEditorActive)
    {
      if !(0 <= selectedWindowId < |editable.items|) {
        return Some(ArgumentOutOfRange);
      }
      var w := editable.items[selectedWindowId];
      w.isLocked := newValue;
      if newValue {
        w.isFlightActive := true;
      }
      outcome := None;
    }

    /** `RenameWindow`: the text box renames the selected window. */
    method RenameWindow(newName: string) returns (outcome: Option<Failure>)
      modifies SelectedWindowSet()`name
      ensures outcome.Some? <==> !(0 <= selectedWindowId < |editable.items|)
      ensures outcome.Some? ==> outcome.value == ArgumentOutOfRange
      ensures outcome.None? ==>
        var w := editable.items[selectedWindowId];
        && w.name == newName && w.entries == old(w.entries) && w.isLocked == old(w.isLocked)
        && w.isFlightActive == old(w.isFlightActive)
    {
      if !(0 <= selectedWindowId < |editable.items|) {
        return Some(ArgumentOutOfRange);
      }
      var w := editable.items[selectedWindowId];
      w.name := newName;
      outcome := None;
    }
  }

  /**
   * `IncreaseDecimalDigits`: one more digit; returns whether "+" and "-" are enabled
   * afterwards.
   */
  method IncreaseDecimalDigits(entry: Windows.Entry) returns (buttons: (bool, bool))
    modifies entry
    ensures entry.numberOfDecimalDigits == old(entry.numberOfDecimalDigits) + 1
    ensures buttons == DecimalButtons(entry.formatting, entry.numberOfDecimalDigits)
  {
    entry.numberOfDecimalDigits := entry.numberOfDecimalDigits + 1;
    buttons := DecimalButtons(entry.formatting, entry.numberOfDecimalDigits);
  }

  /**
   * `DecreaseDecimalDigits`: one digit fewer; returns whether "+" and "-" are enabled
   * afterwards.
   */
  method DecreaseDecimalDigits(entry: Windows.Entry) returns (buttons: (bool, bool))
    modifies entry
    ensures entry.numberOfDecimalDigits == old(entry.numberOfDecimalDigits) - 1
    ensures buttons == DecimalButtons(entry.formatting, entry.numberOfDecimalDigits)
  {
    entry.numberOfDecimalDigits := entry.numberOfDecimalDigits - 1;
    buttons := DecimalButtons(entry.formatting, entry.numberOfDecimalDigits);
  }
}
