/**
 * The single-open panel rule shared by both copies of `setOpen` (module/ui/dh-hud-toggle.mjs
 * and module/apps/dh-actor-hud.mjs): the `data-open` attribute names the open panel, "" when
 * none is open, and each tab's `aria-expanded` says whether its `data-tab` is that name.
 */
module Disclosure {
  import opened Dom

  /** `getAttribute("data-open") || ""`: an absent attribute reads as no panel open. */
  function OpenName(a: Attr): string {
    match a
    case Absent => ""
    case Value(s) => s
  }

  /** `curr === name ? "" : name`: the tab of the open panel closes it, any other tab opens its own. */
  function NextOpen(current: string, name: string): (next: string)
    ensures next == "" || next == name
    ensures next == "" <==> (current == name || name == "")
    ensures current != name ==> next == name
  {
    if current == name then "" else name
  }

  /** Starting with every panel closed, the same tab twice leaves every panel closed again. */
  lemma TwoTogglesClose(name: string)
    ensures NextOpen(NextOpen("", name), name) == ""
  {
  }

  /** The `aria-expanded` value of each tab once `next` is open: "true" exactly on the tab named `next`. */
  function Expanded(tabs: seq<string>, next: string): (flags: seq<string>)
    ensures |flags| == |tabs|
    ensures forall i :: 0 <= i < |tabs| ==> (flags[i] == "true" || flags[i] == "false")
    ensures forall i :: 0 <= i < |tabs| ==> (flags[i] == "true" <==> tabs[i] == next)
  {
    seq(|tabs|, i requires 0 <= i < |tabs| => if tabs[i] == next then "true" else "false")
  }

  /** Tabs name distinct panels. */
  predicate Distinct(tabs: seq<string>) {
    forall i, j :: 0 <= i < j < |tabs| ==> tabs[i] != tabs[j]
  }

  /** With distinct tab names, at most one tab is expanded. */
  lemma AtMostOneExpanded(tabs: seq<string>, next: string, i: nat, j: nat)
    requires Distinct(tabs) && i < |tabs| && j < |tabs|
    requires Expanded(tabs, next)[i] == "true" && Expanded(tabs, next)[j] == "true"
    ensures i == j
  {
  }

  /** `setOpen("")` closes every panel, whatever was open, and collapses every tab not named "". */
  lemma ClosingCollapsesAll(tabs: seq<string>, current: string)
    ensures NextOpen(current, "") == ""
    ensures forall i :: 0 <= i < |tabs| && tabs[i] != "" ==> Expanded(tabs, NextOpen(current, ""))[i] == "false"
  {
  }

  /** The `tabs.forEach` loop that writes `aria-expanded` on every tab. */
  method MarkExpanded(aria: array<Attr>, tabs: seq<string>, next: string)
    requires aria.Length == |tabs|
    modifies aria
    ensures forall i :: 0 <= i < aria.Length ==> aria[i] == Value(Expanded(tabs, next)[i])
  {
    var flags := Expanded(tabs, next);
    for i := 0 to aria.Length
      invariant forall k :: 0 <= k < i ==> aria[k] == Value(flags[k])
    {
      aria[i] := Value(if tabs[i] == next then "true" else "false");
    }
  }

  /** Every tab's `aria-expanded` agrees with the open panel. */
  ghost predicate AriaAgrees(aria: array<Attr>, tabs: seq<string>, dataOpen: Attr)
    reads aria
  {
    aria.Length == |tabs| &&
    forall i :: 0 <= i < aria.Length ==> aria[i] == Value(Expanded(tabs, OpenName(dataOpen))[i])
  }
}
