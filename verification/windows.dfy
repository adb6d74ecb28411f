/**
 * The window/entry data model shared by the managers and the controllers: a window
 * (`BaseWindow` and its subclasses) and an entry (`BaseEntry`) are objects that several
 * lists refer to and that the UI handlers update in place.
 */
module Windows {
  import opened Wrappers

  /** `Utility.CurrentLayoutVersion`: saved layouts older than this are ignored. */
  const CurrentLayoutVersion: int := 14

  /** `MicroEntryCategory`, in declaration order. */
  datatype Category = Vessel | Orbital | Surface | Flight | Target | Maneuver | Stage | Misc | OAB

  const CategoryCount: nat := 9

  /** The integer value of a category (`(int)category`). */
  function CategoryOrdinal(c: Category): (i: nat)
    ensures i < CategoryCount
  {
    match c
    case Vessel => 0 case Orbital => 1 case Surface => 2 case Flight => 3 case Target => 4
    case Maneuver => 5 case Stage => 6 case Misc => 7 case OAB => 8
  }

  /** The category with integer value `i`. */
  function CategoryAt(i: nat): (c: Category)
    requires i < CategoryCount
    ensures CategoryOrdinal(c) == i
  {
    [Category.Vessel, Category.Orbital, Category.Surface, Category.Flight, Category.Target,
     Category.Maneuver, Category.Stage, Category.Misc, Category.OAB][i]
  }

  /** The `MainWindow` tag a window carries. */
  datatype MainWindow =
    | None | MainGui | Settings | Vessel | Orbital | Surface | Flight | Target | Maneuver
    | Stage | StageInfoOAB

  /** The C# class of a window object. */
  datatype WindowKind =
    | MainGuiWindow | SettingsWindow | EntryWindow | TargetWindow | ManeuverWindow
    | StageWindow | StageInfoOabWindow

  /** `w is EntryWindow`: the entry window and its three subclasses. */
  predicate IsEntryWindowKind(k: WindowKind)
  {
    k == EntryWindow || k == TargetWindow || k == ManeuverWindow || k == StageWindow
  }

  /** A `BaseEntry`: one line of telemetry that a window shows. */
  class Entry {
    /** The C# class name of the entry (`Body`, `ScienceRegion`, ...). */
    const typeName: string
    const name: string
    const category: Category
    const isDefault: bool
    /** `null` for entries whose value is not a number. */
    const formatting: Option<string>
    const hideWhenNoData: bool
    /** The digit count a freshly created instance of this class starts with. */
    const defaultDecimalDigits: int
    var numberOfDecimalDigits: int

    constructor (typeName: string, name: string, category: Category, isDefault: bool,
                 formatting: Option<string>, hideWhenNoData: bool, digits: int)
      ensures this.typeName == typeName && this.name == name && this.category == category
      ensures this.isDefault == isDefault && this.formatting == formatting
      ensures this.hideWhenNoData == hideWhenNoData
      ensures defaultDecimalDigits == digits && numberOfDecimalDigits == digits
    {
      this.typeName, this.name, this.category := typeName, name, category;
      this.isDefault, this.formatting, this.hideWhenNoData := isDefault, formatting, hideWhenNoData;
      defaultDecimalDigits, numberOfDecimalDigits := digits, digits;
    }

    /** `Activator.CreateInstance(entry.GetType())`: a new entry of the same class. */
    constructor FreshInstance(of: Entry)
      ensures typeName == of.typeName && name == of.name && category == of.category
      ensures isDefault == of.isDefault && formatting == of.formatting
      ensures hideWhenNoData == of.hideWhenNoData
      ensures defaultDecimalDigits == of.defaultDecimalDigits
      ensures numberOfDecimalDigits == of.defaultDecimalDigits
    {
      typeName, name, category := of.typeName, of.name, of.category;
      isDefault, formatting, hideWhenNoData := of.isDefault, of.formatting, of.hideWhenNoData;
      defaultDecimalDigits, numberOfDecimalDigits := of.defaultDecimalDigits, of.defaultDecimalDigits;
    }
  }

  /** A `BaseWindow` (or one of its subclasses, named by `kind`). */
  class Window {
    const kind: WindowKind
    const mainWindow: MainWindow
    var name: string
    var abbreviation: string
    var description: string
    var isEditorActive: bool
    var isFlightActive: bool
    var isMapActive: bool
    var isFlightPoppedOut: bool
    var isLocked: bool
    /** `MainGuiWindow.LayoutVersion`; unused by the other kinds. */
    var layoutVersion: int
    /** The entries the window shows; `null` where a lookup by class found nothing. */
    var entries: seq<Entry?>

    /** Every window except MainGui, Settings, Stage and StageInfoOAB can be edited. */
    predicate IsEditable()
    {
      mainWindow !in {MainWindow.MainGui, MainWindow.Settings, MainWindow.Stage, MainWindow.StageInfoOAB}
    }

    /** Only windows that are not one of the built-in sections can be deleted. */
    predicate IsDeletable()
    {
      mainWindow == MainWindow.None
    }

    constructor (kind: WindowKind, mainWindow: MainWindow, name: string, abbreviation: string,
                 description: string, isEditorActive: bool, isFlightActive: bool,
                 entries: seq<Entry?>)
      ensures this.kind == kind && this.mainWindow == mainWindow
      ensures this.name == name && this.abbreviation == abbreviation
      ensures this.description == description
      ensures this.isEditorActive == isEditorActive && this.isFlightActive == isFlightActive
      ensures !isMapActive && !isFlightPoppedOut && !isLocked
      ensures layoutVersion == 0 && this.entries == entries
    {
      this.kind, this.mainWindow := kind, mainWindow;
      this.name, this.abbreviation, this.description := name, abbreviation, description;
      this.isEditorActive, this.isFlightActive := isEditorActive, isFlightActive;
      isMapActive, isFlightPoppedOut, isLocked := false, false, false;
      layoutVersion := 0;
      this.entries := entries;
    }
  }

  /** A `List<EntryWindow>` that more than one owner appends to or removes from. */
  class WindowList {
    var items: seq<Window>

    constructor (items: seq<Window>)
      ensures this.items == items
    {
      this.items := items;
    }
  }

  /** The windows of `ws` whose `IsEditable` holds, in order. */
  function EditableOf(ws: seq<Window>): seq<Window>
  {
    if ws == [] then []
    else (if ws[0].IsEditable() then [ws[0]] else []) + EditableOf(ws[1..])
  }

  /** The editable list holds exactly the editable windows of `ws`. */
  lemma {:induction false} EditableOfSpec(ws: seq<Window>)
    ensures forall w :: w in EditableOf(ws) <==> w in ws && w.IsEditable()
    ensures |EditableOf(ws)| <= |ws|
  {
    if ws != [] {
      EditableOfSpec(ws[1..]);
      assert ws == [ws[0]] + ws[1..];
    }
  }

  /** `list.Remove(x)`: drop the first occurrence of `x`, if there is one. */
  function RemoveFirst<T(==)>(s: seq<T>, x: T): (r: seq<T>)
    ensures x !in s ==> r == s
    ensures x in s ==> |r| == |s| - 1
    ensures forall y :: y in r ==> y in s
    ensures forall y :: y in s && y != x ==> y in r
  {
    if s == [] then []
    else if s[0] == x then
      assert s == [s[0]] + s[1..];
      s[1..]
    else
      assert s == [s[0]] + s[1..];
      [s[0]] + RemoveFirst(s[1..], x)
  }

  /** Removing the first occurrence keeps the elements before it and shifts the rest left. */
  lemma {:induction false} RemoveFirstAt<T>(s: seq<T>, k: nat)
    requires k < |s| && s[k] !in s[..k]
    ensures RemoveFirst(s, s[k]) == s[..k] + s[k + 1..]
  {
    if k > 0 {
      var t := s[1..];
      assert s[0] in s[..k];
      assert t[k - 1] == s[k];
      assert t[..k - 1] == s[1..k];
      assert t[k..] == s[k + 1..];
      RemoveFirstAt(t, k - 1);
      calc {
        RemoveFirst(s, s[k]);
        [s[0]] + RemoveFirst(t, s[k]);
        [s[0]] + (s[1..k] + s[k + 1..]);
        { assert [s[0]] + s[1..k] == s[..k]; }
        s[..k] + s[k + 1..];
      }
    }
  }
}
