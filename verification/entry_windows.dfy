/**
 * The flight-scene window of a section (`EntryWindowController`): which of its parts are
 * shown, the title and pop-out buttons, the maneuver node header and footer, and the
 * value controls of its entries.
 */
module EntryWindows {
  import opened Wrappers
  import Text
  import Windows

  /** The host's maneuver state read by a maneuver window: node count and selected node. */
  datatype ManeuverNodes = ManeuverNodes(count: int, selectedIndex: int)

  /**
   * The title buttons (`BuildTitle`): a docked window shows only the pop-out button; a
   * popped-out one shows only the close button, and not even that when it is locked.
   */
  function TitleButtons(poppedOut: bool, locked: bool): (shown: (bool, bool))
    ensures shown.0 <==> !poppedOut
    ensures shown.1 <==> poppedOut && !locked
  {
    if poppedOut then (false, !locked) else (true, false)
  }

  /** Never both title buttons; an unlocked window always has one of them. */
  lemma TitleButtonsExclusive(poppedOut: bool, locked: bool)
    ensures !(TitleButtons(poppedOut, locked).0 && TitleButtons(poppedOut, locked).1)
    ensures !locked ==> TitleButtons(poppedOut, locked).0 || TitleButtons(poppedOut, locked).1
  {
  }

  /** The flags the pop-out and close buttons change. */
  datatype FlightFlags = FlightFlags(poppedOut: bool, active: bool)

  /** `OnPopOutOrCloseButton`: pop out (and activate) a docked window, dock a popped-out one. */
  function PopOutOrClose(f: FlightFlags): (r: FlightFlags)
    ensures r.poppedOut == !f.poppedOut
    ensures r.poppedOut ==> r.active
    ensures !r.poppedOut ==> r.active == f.active
  {
    if f.poppedOut then FlightFlags(false, f.active) else FlightFlags(true, true)
  }

  /**
   * Two presses put the window back where it was, and leave it active: one of the two
   * presses popped it out.
   */
  lemma PopOutTwice(f: FlightFlags)
    ensures PopOutOrClose(PopOutOrClose(f)).poppedOut == f.poppedOut
    ensures PopOutOrClose(PopOutOrClose(f)).active
  {
  }

  /** `CheckIfManeuverHeaderAndFooterShouldBeHidden`: header from two nodes, footer from one. */
  function ManeuverSections(nodeCount: int): (shown: (bool, bool))
    ensures shown.0 <==> nodeCount > 1
    ensures shown.1 <==> nodeCount > 0
  {
    (nodeCount > 1, nodeCount > 0)
  }

  /** The header never shows without the footer. */
  lemma HeaderImpliesFooter(nodeCount: int)
    ensures ManeuverSections(nodeCount).0 ==> ManeuverSections(nodeCount).1
  {
  }

  /** `UpdateManeuverNodeHeader`: the node label and whether "previous" and "next" are enabled. */
  function NodeHeader(nodes: ManeuverNodes): (r: (string, bool, bool))
    ensures r.0 == "Node #" + Text.IntToString(nodes.selectedIndex + 1)
    ensures !r.1 <==> nodes.selectedIndex == 0
    ensures !r.2 <==> nodes.selectedIndex >= nodes.count - 1
  {
    ("Node #" + Text.IntToString(nodes.selectedIndex + 1), nodes.selectedIndex != 0,
     nodes.selectedIndex < nodes.count - 1)
  }

  /**
   * Whenever the header is shown and the selection is a node, one of the arrows leads
   * somewhere, and the label names a positive node number.
   */
  lemma NodeHeaderUsable(nodes: ManeuverNodes)
    requires ManeuverSections(nodes.count).0 && 0 <= nodes.selectedIndex < nodes.count
    ensures NodeHeader(nodes).1 || NodeHeader(nodes).2
    ensures NodeHeader(nodes).0[6] != '-'
  {
    Text.NatToStringLength(nodes.selectedIndex + 1);
  }

  /** `BaseEntryControl`: the value and unit labels of an entry, and its visibility. */
  class EntryControl {
    var value: string
    var unit: string
    var shown: bool
    var timeOfLastClick: real

    constructor ()
      ensures value == "" && unit == "" && shown && timeOfLastClick == 0.0
    {
      value, unit, shown, timeOfLastClick := "", "", true, 0.0;
    }

    /**
     * `HandleEntryValueChanged`: show the new value and unit. An entry that hides when it
     * has no data is hidden exactly while its value is "-" or empty; others keep their
     * visibility.
     */
    method HandleEntryValueChanged(newValue: string, newUnit: string, hideWhenNoData: bool)
      modifies this
      ensures value == newValue && unit == newUnit && timeOfLastClick == old(timeOfLastClick)
      ensures hideWhenNoData ==> (shown <==> !(newValue == "-" || newValue == ""))
      ensures !hideWhenNoData ==> shown == old(shown)
    {
      if hideWhenNoData {
        if newValue == "-" || newValue == "" {
          shown := false;
        } else {
          shown := true;
        }
      }
      value := newValue;
      if unit != newUnit {
        unit := newUnit;
      }
    }
  }

  /** `AltUnit`: whether an entry shows its alternative unit. */
  class AltUnit {
    var isActive: bool

    constructor (isActive: bool)
      ensures this.isActive == isActive
    {
      this.isActive := isActive;
    }
  }

  /**
   * `ToggleAltUnit`: a click within half a second of the previous one on the same
   * control switches the unit; every click is timed.
   */
  method ToggleAltUnit(control: EntryControl, altUnit: AltUnit, now: real)
    modifies control, altUnit
    ensures control.timeOfLastClick == now
    ensures altUnit.isActive == if now - old(control.timeOfLastClick) < 0.5 then !old(altUnit.isActive)
                                else old(altUnit.isActive)
    ensures control.value == old(control.value) && control.unit == old(control.unit)
    ensures control.shown == old(control.shown)
  {
    if now - control.timeOfLastClick < 0.5 {
      altUnit.isActive := !altUnit.isActive;
    }
    control.timeOfLastClick := now;
  }

  /** `EntryWindowController`: the parts of one window that are shown. */
  class EntryWindowController {
    const window: Windows.Window
    /** `Expand` versus `Collapse`: the title styling and the arrows. */
    var expanded: bool
    var headerShown: bool
    var bodyShown: bool
    var footerShown: bool
    var settingsButtonShown: bool
    var popOutButtonShown: bool
    var closeButtonShown: bool
    var nodeLabel: string
    var previousNodeEnabled: bool
    var nextNodeEnabled: bool

    /** The parts shown follow the window's flags and, for a maneuver window, the nodes. */
    predicate ShowsWindow(nodes: ManeuverNodes)
      reads this, window
    {
      && expanded == window.isFlightActive
      && bodyShown == window.isFlightActive
      && (window.kind != Windows.ManeuverWindow || !window.isFlightActive ==>
            headerShown == window.isFlightActive && footerShown == window.isFlightActive)
      && (window.kind == Windows.ManeuverWindow && window.isFlightActive ==>
            (headerShown, footerShown) == ManeuverSections(nodes.count)
            && (nodeLabel, previousNodeEnabled, nextNodeEnabled) == NodeHeader(nodes))
    }

    /** `Expand` and `Collapse`, chosen by whether the window is active. */
    method ExpandOrCollapse(nodes: ManeuverNodes)
      modifies this`expanded, this`headerShown, this`bodyShown, this`footerShown,
        this`nodeLabel, this`previousNodeEnabled, this`nextNodeEnabled
      ensures ShowsWindow(nodes)
      ensures window.kind != Windows.ManeuverWindow || !window.isFlightActive ==>
        nodeLabel == old(nodeLabel) && previousNodeEnabled == old(previousNodeEnabled)
        && nextNodeEnabled == old(nextNodeEnabled)
      ensures settingsButtonShown == old(settingsButtonShown) && popOutButtonShown == old(popOutButtonShown)
      ensures closeButtonShown == old(closeButtonShown)
    {
      if window.isFlightActive {
        expanded, headerShown, bodyShown, footerShown := true, true, true, true;
        if window.kind == Windows.ManeuverWindow {
          CheckIfManeuverHeaderAndFooterShouldBeHidden(nodes.count);
          UpdateManeuverNodeHeader(nodes);
        }
      } else {
        expanded, headerShown, bodyShown, footerShown := false, false, false, false;
      }
    }

    /**
     * `Initialize`: the title buttons, the expanded state, and the settings button of
     * editable windows. A maneuver window then gets its header and footer from the node
     * count whether or not it is collapsed.
     */
    constructor (window: Windows.Window, nodes: ManeuverNodes)
      ensures this.window == window
      ensures (popOutButtonShown, closeButtonShown) == TitleButtons(window.isFlightPoppedOut, window.isLocked)
      ensures settingsButtonShown <==> window.IsEditable()
      ensures expanded == window.isFlightActive && bodyShown == window.isFlightActive
      ensures window.kind != Windows.ManeuverWindow ==> ShowsWindow(nodes)
      ensures window.kind == Windows.ManeuverWindow ==>
        (headerShown, footerShown) == ManeuverSections(nodes.count)
        && (nodeLabel, previousNodeEnabled, nextNodeEnabled) == NodeHeader(nodes)
    {
      this.window := window;
      nodeLabel, previousNodeEnabled, nextNodeEnabled := "", true, true;
      expanded, headerShown, bodyShown, footerShown := true, true, true, true;
      settingsButtonShown, popOutButtonShown, closeButtonShown := true, true, true;
      new;
      if window.isFlightPoppedOut {
        popOutButtonShown := false;
        if window.isLocked {
          closeButtonShown := false;
        }
      } else {
        closeButtonShown := false;
      }
      ExpandOrCollapse(nodes);
      if !window.IsEditable() {
        settingsButtonShown := false;
      }
      if window.kind == Windows.ManeuverWindow {
        CheckIfManeuverHeaderAndFooterShouldBeHidden(nodes.count);
        UpdateManeuverNodeHeader(nodes);
      }
    }

    /** `OnTitleClick`: flip whether the window is active, and expand or collapse it to match. */
    method OnTitleClick(nodes: ManeuverNodes)
      modifies window`isFlightActive, this`expanded, this`headerShown, this`bodyShown, this`footerShown,
        this`nodeLabel, this`previousNodeEnabled, this`nextNodeEnabled
      ensures window.isFlightActive == !old(window.isFlightActive)
      ensures window.isFlightPoppedOut == old(window.isFlightPoppedOut) && window.isLocked == old(window.isLocked)
      ensures ShowsWindow(nodes)
    {
      window.isFlightActive := !window.isFlightActive;
      ExpandOrCollapse(nodes);
    }

    /** `OnPopOutOrCloseButton` (the layout is then saved and the UI rebuilt). */
    method OnPopOutOrCloseButton()
      modifies window`isFlightPoppedOut, window`isFlightActive
      ensures FlightFlags(window.isFlightPoppedOut, window.isFlightActive)
           == PopOutOrClose(FlightFlags(old(window.isFlightPoppedOut), old(window.isFlightActive)))
      ensures window.isLocked == old(window.isLocked) && window.entries == old(window.entries)
    {
      window.isFlightPoppedOut := !window.isFlightPoppedOut;
      if window.isFlightPoppedOut {
        window.isFlightActive := true;
      }
    }

    method CheckIfManeuverHeaderAndFooterShouldBeHidden(nodeCount: int)
      modifies this`headerShown, this`footerShown
      ensures (headerShown, footerShown) == ManeuverSections(nodeCount)
      ensures expanded == old(expanded) && bodyShown == old(bodyShown)
      ensures nodeLabel == old(nodeLabel) && previousNodeEnabled == old(previousNodeEnabled)
      ensures nextNodeEnabled == old(nextNodeEnabled)
      ensures settingsButtonShown == old(settingsButtonShown) && popOutButtonShown == old(popOutButtonShown)
      ensures closeButtonShown == old(closeButtonShown)
    {
      headerShown := nodeCount > 1;
      footerShown := nodeCount > 0;
    }

    method UpdateManeuverNodeHeader(nodes: ManeuverNodes)
      modifies this`nodeLabel, this`previousNodeEnabled, this`nextNodeEnabled
      ensures (nodeLabel, previousNodeEnabled, nextNodeEnabled) == NodeHeader(nodes)
      ensures expanded == old(expanded) && bodyShown == old(bodyShown)
      ensures headerShown == old(headerShown) && footerShown == old(footerShown)
      ensures settingsButtonShown == old(settingsButtonShown) && popOutButtonShown == old(popOutButtonShown)
      ensures closeButtonShown == old(closeButtonShown)
    {
      nodeLabel := "Node #" + Text.IntToString(nodes.selectedIndex + 1);
      if nodes.selectedIndex == 0 {
        previousNodeEnabled := false;
      } else {
        previousNodeEnabled := true;
      }
      if nodes.selectedIndex >= nodes.count - 1 {
        nextNodeEnabled := false;
      } else {
        nextNodeEnabled := true;
      }
    }
  }
}
