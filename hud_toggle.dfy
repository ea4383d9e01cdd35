/**
 * The minimal panel toggler of module/ui/dh-hud-toggle.mjs, attached to a HUD root: clicking a
 * tab (or Enter / Space on it) toggles its panel, Escape inside the root and a pointer-down
 * outside it close the open panel. The root's `data-open` and the tabs' `aria-expanded` are
 * the state it changes.
 */
module HudToggle {
  import opened Wrappers
  import opened Dom
  import opened Disclosure

  class Toggler {
    /** The `data-tab` of each `.dhud-tab`, in document order. */
    const tabs: seq<string>
    /** The `aria-expanded` attribute of each tab. */
    const aria: array<Attr>
    /** The root's `data-open` attribute. */
    var dataOpen: Attr

    ghost predicate Valid()
      reads this
    {
      aria.Length == |tabs|
    }

    /** The panel open now, "" for none. */
    function Open(): string
      reads this
    {
      OpenName(dataOpen)
    }

    /** `attachDHUDToggles(root)` on a root whose attributes are as given. */
    constructor(tabs: seq<string>, aria: array<Attr>, dataOpen: Attr)
      requires aria.Length == |tabs|
      ensures Valid()
      ensures this.tabs == tabs && this.aria == aria && this.dataOpen == dataOpen
    {
      this.tabs := tabs;
      this.aria := aria;
      this.dataOpen := dataOpen;
    }

    /** `setOpen(name)`: the named panel toggles and every other one closes; every tab's
        `aria-expanded` then agrees with the open panel. Nothing else changes. */
    method SetOpen(name: string)
      requires Valid()
      modifies this`dataOpen, aria
      ensures Valid()
      ensures dataOpen == Value(NextOpen(old(Open()), name))
      ensures AriaAgrees(aria, tabs, dataOpen)
    {
      var next := NextOpen(OpenName(dataOpen), name);
      dataOpen := Value(next);
      MarkExpanded(aria, tabs, next);
    }

    /** A click on tab i. */
    method OnTabClick(i: nat)
      requires Valid() && i < |tabs|
      modifies this`dataOpen, aria
      ensures Valid()
      ensures dataOpen == Value(NextOpen(old(Open()), tabs[i]))
      ensures AriaAgrees(aria, tabs, dataOpen)
    {
      SetOpen(tabs[i]);
    }

    /**
     * A key pressed with the focus inside the root, on tab `tab` when there is one. The tab's
     * handler runs first: Enter and Space act as a click on it. Then the event reaches the
     * root, where Escape closes the open panel. Any other key changes nothing.
     */
    method OnKeyDown(key: string, tab: Option<nat>)
      requires Valid() && (tab.Some? ==> tab.value < |tabs|)
      modifies this`dataOpen, aria
      ensures Valid()
      ensures tab.Some? && (key == "Enter" || key == " ") ==>
        dataOpen == Value(NextOpen(old(Open()), tabs[tab.value])) && AriaAgrees(aria, tabs, dataOpen)
      ensures key == "Escape" ==> dataOpen == Value("") && AriaAgrees(aria, tabs, dataOpen)
      ensures key != "Escape" && !(tab.Some? && (key == "Enter" || key == " ")) ==>
        dataOpen == old(dataOpen) && aria[..] == old(aria[..])
    {
      if tab.Some? && (key == "Enter" || key == " ") {
        SetOpen(tabs[tab.value]);
      }
      if key == "Escape" {
        SetOpen("");
      }
    }

    /** A pointer-down anywhere in the document: outside the root it closes the open panel,
        inside it changes nothing. */
    method OnDocumentPointerDown(insideRoot: bool)
      requires Valid()
      modifies this`dataOpen, aria
      ensures Valid()
      ensures !insideRoot ==> dataOpen == Value("") && AriaAgrees(aria, tabs, dataOpen)
      ensures insideRoot ==> dataOpen == old(dataOpen) && aria[..] == old(aria[..])
    {
      if !insideRoot {
        SetOpen("");
      }
    }
  }

  /** Two clicks on the same tab, starting with every panel closed, close it again. */
  method ClickTwiceCloses(t: Toggler, i: nat)
    requires t.Valid() && i < |t.tabs| && t.Open() == ""
    modifies t, t.aria
    ensures t.Valid() && t.Open() == "" && AriaAgrees(t.aria, t.tabs, t.dataOpen)
  {
    t.OnTabClick(i);
    t.OnTabClick(i);
    TwoTogglesClose(t.tabs[i]);
  }
}
