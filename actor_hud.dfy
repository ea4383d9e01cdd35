/**
 * The placement, drag and wings behaviour of the actor HUD (module/apps/dh-actor-hud.mjs),
 * as it stands once the HUD has been rendered: the application element's inline style,
 * the shell's `data-wings` and `data-open`, the wings' `inert`, the tabs' `aria-expanded`,
 * the ring-drag session and the instance flags. Bounding boxes, `window.innerWidth` and
 * `Date.now()` are parameters; `requestAnimationFrame` callbacks wait in `frames` and run,
 * in order, through `RunNextFrame`.
 */
module ActorHud {
  import opened Wrappers
  import opened Dom
  import opened Disclosure

  /** The distance, in pixels, between the anchored HUD and the bottom of the viewport. */
  const BOTTOM_OFFSET: real := 110.0
  /** How long, in milliseconds, a ring click is ignored after a drag. */
  const CLICK_GUARD_MS: int := 160
  /** The largest drift of the ring's centre, in pixels, left uncorrected. */
  const DRIFT_TOLERANCE: real := 0.5

  /** A pending `requestAnimationFrame` callback: the end of a drag, or the drift compensation
      of `setWingsState` with the ring's centre measured before the change. */
  datatype Frame = EndDrag | Compensate(cxPre: real)

  /** The `left` that `placeAtBottom` gives: the HUD centred in the viewport when it fits,
      flush with the left edge when it does not. */
  function CenteredLeft(innerWidth: real, width: real): (left: real)
    ensures left >= 0.0
    ensures width <= innerWidth ==> left + width / 2.0 == innerWidth / 2.0
    ensures innerWidth <= width ==> left == 0.0
  {
    if (innerWidth - width) / 2.0 > 0.0 then (innerWidth - width) / 2.0 else 0.0
  }

  /** `parseFloat(style.left || "0")`: an unset value reads as 0, a length as its number,
      anything else as NaN (None). */
  function LeftValue(left: Css): Option<real> {
    match left
    case Unset => Some(0.0)
    case Px(v) => Some(v)
    case _ => None
  }

  /** The `left` after the compensation frame, for a ring whose centre drifted by dx. A drift of at
      most 0.5 px changes nothing; a larger one moves the HUD back by dx. Assigning "NaNpx" is
      ignored by the browser, so an unreadable `left` stays. */
  function Compensated(left: Css, dx: real): (r: Css)
    ensures Abs(dx) <= DRIFT_TOLERANCE || LeftValue(left).None? ==> r == left
    ensures r.Unset? || r.Px? || r == left
  {
    if Abs(dx) > DRIFT_TOLERANCE then
      match LeftValue(left)
      case Some(v) => Px(v - dx)
      case None => left
    else left
  }

  /** How far the HUD, and the ring inside it, moves horizontally when `left` changes from a to b. */
  function Shift(a: Css, b: Css): real
    requires LeftValue(a).Some? && LeftValue(b).Some?
  {
    LeftValue(b).value - LeftValue(a).value
  }

  /**
   * The ring stays put: when the ring's centre is read at cxPost after the wings change, and it
   * moves with the HUD, its centre after the compensation frame is back at cxPre exactly when
   * the drift exceeded 0.5 px, and within 0.5 px of it otherwise. Two layout assumptions carry
   * it: the ring moves one for one with the HUD's `left`, and an unset `left` sits at 0 (what
   * `parseFloat(... || 0)` reads for it).
   */
  lemma CompensationRestoresCentre(left: Css, cxPre: real, post: Rect)
    requires LeftValue(left).Some?
    ensures var r := Compensated(left, CenterX(post) - cxPre);
      LeftValue(r).Some? &&
      Abs(CenterX(post) + Shift(left, r) - cxPre) <= DRIFT_TOLERANCE &&
      (Abs(CenterX(post) - cxPre) > DRIFT_TOLERANCE ==> CenterX(post) + Shift(left, r) == cxPre)
  {
  }

  /** `this._justDraggedTs && (Date.now() - this._justDraggedTs) < 160`: 0 is the unset (falsy) mark. */
  predicate ClickSuppressed(justDraggedTs: int, now: int) {
    justDraggedTs != 0 && now - justDraggedTs < CLICK_GUARD_MS
  }

  /** The state a ring click asks for: "open" unless the wings are open now. */
  function ToggledWings(dataWings: Attr): (state: string)
    ensures state == "closed" <==> dataWings == Value("open")
    ensures state == "open" || state == "closed"
  {
    if dataWings != Value("open") then "open" else "closed"
  }

  /** Two ring clicks, neither suppressed, give the wings back the state they had, once they have one. */
  lemma ToggleTwice(state: string)
    requires state == "open" || state == "closed"
    ensures ToggledWings(Value(ToggledWings(Value(state)))) == state
  {
  }

  class Hud {
    /** Whether the template holds `.dhud` (the shell), each wing and `.dhud-ring`. */
    const hasShell: bool
    const hasLeftWing: bool
    const hasRightWing: bool
    const hasRing: bool
    /** The `data-tab` of each `.dhud-tab`, and their `aria-expanded`. */
    const tabs: seq<string>
    const aria: array<Attr>

    /** The application element's inline style. */
    var position: Css
    var left: Css
    var top: Css
    var bottom: Css
    var right: Css

    /** The shell's attributes, the wings' `inert` and the ring's cursor. */
    var dataWings: Attr
    var dataOpen: Attr
    var leftInert: bool
    var rightInert: bool
    var ringCursor: string

    /** `_isDragging`, `_justDraggedTs` (0 while unset), `_wingsInit`, whether the window's
        resize listener is attached, `_dragHooked` and `_ringToggleHooked`. */
    var isDragging: bool
    var justDraggedTs: int
    var wingsInit: bool
    var resizeHooked: bool
    var dragHooked: bool
    var ringHooked: bool

    /** The drag session: whether the move and up listeners are attached, where the pointer and
        the HUD were at pointer-down, and whether the pointer has moved since. */
    var listening: bool
    var startX: real
    var startY: real
    var startLeft: real
    var startTop: real
    var didMove: bool

    /** Pending animation-frame callbacks, oldest first. */
    var frames: seq<Frame>

    /**
     * What every handler keeps: `left` is always a readable length (so the compensation never
     * reads NaN); a move is only recorded during a session; and the HUD counts as dragging only
     * while the pointer is held or until the frame queued at pointer-up clears the flag.
     */
    ghost predicate Valid()
      reads this
    {
      aria.Length == |tabs| &&
      (left.Unset? || left.Px?) &&
      (didMove ==> listening) &&
      (isDragging ==> listening || EndDrag in frames) &&
      (ringHooked ==> hasRing)
    }

    /** A HUD before its first render: no inline style, no listener hooked, no session, nothing
      pending. */
    constructor(hasShell: bool, hasLeftWing: bool, hasRightWing: bool, hasRing: bool,
                tabs: seq<string>, aria: array<Attr>, dataWings: Attr, dataOpen: Attr)
      requires aria.Length == |tabs|
      ensures Valid()
      ensures this.hasShell == hasShell && this.hasLeftWing == hasLeftWing
      ensures this.hasRightWing == hasRightWing && this.hasRing == hasRing
      ensures this.tabs == tabs && this.aria == aria
      ensures this.dataWings == dataWings && this.dataOpen == dataOpen
      ensures position == Unset && left == Unset && top == Unset && bottom == Unset && right == Unset
      ensures !leftInert && !rightInert && ringCursor == ""
      ensures !isDragging && justDraggedTs == 0 && !wingsInit && !resizeHooked && !dragHooked && !ringHooked
      ensures !listening && !didMove && frames == []
    {
      this.hasShell := hasShell;
      this.hasLeftWing := hasLeftWing;
      this.hasRightWing := hasRightWing;
      this.hasRing := hasRing;
      this.tabs := tabs;
      this.aria := aria;
      this.dataWings := dataWings;
      this.dataOpen := dataOpen;
      position, left, top, bottom, right := Unset, Unset, Unset, Unset, Unset;
      leftInert, rightInert, ringCursor := false, false, "";
      isDragging, justDraggedTs, wingsInit, resizeHooked := false, 0, false, false;
      dragHooked, ringHooked := false, false;
      listening, startX, startY, startLeft, startTop, didMove := false, 0.0, 0.0, 0.0, 0.0, false;
      frames := [];
    }

    // ------------------------------------------------------------ placement

    /** `placeAtBottom(appEl)`: nothing when the element cannot be measured (`rect` None);
        otherwise absolute, 110 px from the bottom, top and right "auto", centred horizontally. */
    method PlaceAtBottom(rect: Option<Rect>, innerWidth: real)
      requires Valid()
      modifies this`position, this`left, this`top, this`bottom, this`right
      ensures Valid()
      ensures rect.None? ==> (position == old(position) && left == old(left) &&
        top == old(top) && bottom == old(bottom) && right == old(right))
      ensures rect.Some? ==> (position == Absolute && bottom == Px(BOTTOM_OFFSET) &&
        top == Auto && right == Auto && left == Px(CenteredLeft(innerWidth, rect.value.width)))
    {
      if rect.Some? {
        position := Absolute;
        bottom := Px(BOTTOM_OFFSET);
        top := Auto;
        right := Auto;
        left := Px(CenteredLeft(innerWidth, rect.value.width));
      }
    }

    /** A window resize: once a render has attached the listener, re-anchors at the bottom unless
        a drag is in progress; before the first render nothing listens. */
    method OnResize(rect: Option<Rect>, innerWidth: real)
      requires Valid()
      modifies this`position, this`left, this`top, this`bottom, this`right
      ensures Valid()
      ensures !resizeHooked || isDragging || rect.None? ==> (position == old(position) &&
        left == old(left) && top == old(top) && bottom == old(bottom) && right == old(right))
      ensures resizeHooked && !isDragging && rect.Some? ==> (position == Absolute &&
        bottom == Px(BOTTOM_OFFSET) && top == Auto && right == Auto &&
        left == Px(CenteredLeft(innerWidth, rect.value.width)))
    {
      if resizeHooked && !isDragging {
        PlaceAtBottom(rect, innerWidth);
      }
    }

    // ------------------------------------------------------------ dragging by the ring

    /** `onDown`: once a render has hooked the drag, a primary-button press on the ring starts a
        session from the HUD's box `app`; any other button, a HUD without a ring, or a press
        before the hook changes nothing. */
    method OnPointerDown(button: int, x: real, y: real, app: Rect)
      requires Valid()
      modifies this`ringCursor, this`startX, this`startY, this`startLeft, this`startTop, this`listening
      ensures Valid()
      ensures dragHooked && hasRing && button == 0 ==> (ringCursor == "grabbing" && listening &&
        startX == x && startY == y && startLeft == app.left && startTop == app.top)
      ensures !(dragHooked && hasRing && button == 0) ==> (ringCursor == old(ringCursor) && listening == old(listening) &&
        startX == old(startX) && startY == old(startY) && startLeft == old(startLeft) && startTop == old(startTop))
    {
      if dragHooked && hasRing && button == 0 {
        ringCursor := "grabbing";
        startX, startY := x, y;
        startLeft, startTop := app.left, app.top;
        listening := true;
      }
    }

    /** `onMove`, while the session's listeners are attached: the first move leaves the bottom
        anchor; every move puts the HUD at its start position plus the pointer's displacement. */
    method OnPointerMove(x: real, y: real, app: Rect)
      requires Valid()
      modifies this`left, this`top, this`bottom, this`didMove, this`isDragging
      ensures Valid()
      ensures old(listening) ==> (left == Px(startLeft + (x - startX)) && top == Px(startTop + (y - startY)) &&
        didMove && isDragging)
      ensures old(listening) ==> bottom == if old(didMove) then old(bottom) else Auto
      ensures !old(listening) ==> (left == old(left) && top == old(top) && bottom == old(bottom) &&
        didMove == old(didMove) && isDragging == old(isDragging))
    {
      if listening {
        if !didMove {
          bottom := Auto;
          top := Px(app.top);
          didMove := true;
        }
        isDragging := true;
        left := Px(startLeft + (x - startX));
        top := Px(startTop + (y - startY));
      }
    }

    /** `onUp`, while the session's listeners are attached: ends the session, stamps the time only
        if the pointer moved, and queues the frame that clears `_isDragging`. */
    method OnPointerUp(now: int)
      requires Valid()
      modifies this`ringCursor, this`listening, this`justDraggedTs, this`didMove, this`frames
      ensures Valid()
      ensures old(listening) ==> ringCursor == "grab" && !listening && !didMove && frames == old(frames) + [EndDrag]
      ensures old(listening) ==> justDraggedTs == if old(didMove) then now else old(justDraggedTs)
      ensures !old(listening) ==> (ringCursor == old(ringCursor) && !listening && !didMove &&
        justDraggedTs == old(justDraggedTs) && frames == old(frames))
    {
      if listening {
        ringCursor := "grab";
        listening := false;
        if didMove {
          justDraggedTs := now;
        }
        didMove := false;
        frames := frames + [EndDrag];
      }
    }

    // ------------------------------------------------------------ wings

    /**
     * `setWingsState(root, state)`: nothing unless the shell, both wings and the ring are there.
     * Otherwise the shell takes the state, both wings are inert exactly when it is "closed",
     * closing also closes the open panel, and the drift compensation is queued with the ring's
     * centre as it is now. The tabs' `aria-expanded` are not touched.
     */
    method SetWingsState(state: string, ring: Rect)
      requires Valid()
      modifies this`dataWings, this`leftInert, this`rightInert, this`dataOpen, this`frames
      ensures Valid()
      ensures !(hasShell && hasLeftWing && hasRightWing && hasRing) ==>
        dataWings == old(dataWings) && leftInert == old(leftInert) && rightInert == old(rightInert) &&
        dataOpen == old(dataOpen) && frames == old(frames)
      ensures hasShell && hasLeftWing && hasRightWing && hasRing ==>
        dataWings == Value(state) && leftInert == (state == "closed") && rightInert == (state == "closed") &&
        dataOpen == (if state == "closed" then Value("") else old(dataOpen)) &&
        frames == old(frames) + [Compensate(CenterX(ring))]
    {
      if hasShell && hasLeftWing && hasRightWing && hasRing {
        var cxPre := CenterX(ring);
        dataWings := Value(state);
        var closed := state == "closed";
        leftInert := closed;
        rightInert := closed;
        if closed {
          dataOpen := Value("");
        }
        frames := frames + [Compensate(cxPre)];
      }
    }

    /** The ring's click listener, present once a render has hooked it: ignored within 160 ms of
        a drag, otherwise it toggles the wings. */
    method OnRingClick(now: int, ring: Rect)
      requires Valid()
      modifies this`dataWings, this`leftInert, this`rightInert, this`dataOpen, this`frames
      ensures Valid()
      ensures !ringHooked || ClickSuppressed(justDraggedTs, now) || !(hasShell && hasLeftWing && hasRightWing) ==>
        (dataWings == old(dataWings) && leftInert == old(leftInert) && rightInert == old(rightInert) &&
        dataOpen == old(dataOpen) && frames == old(frames))
      ensures ringHooked && !ClickSuppressed(justDraggedTs, now) && hasShell && hasLeftWing && hasRightWing ==>
        (dataWings == Value(ToggledWings(old(dataWings))) &&
        leftInert == (ToggledWings(old(dataWings)) == "closed") &&
        rightInert == (ToggledWings(old(dataWings)) == "closed") &&
        dataOpen == (if ToggledWings(old(dataWings)) == "closed" then Value("") else old(dataOpen)) &&
        frames == old(frames) + [Compensate(CenterX(ring))])
    {
      if ringHooked && !ClickSuppressed(justDraggedTs, now) {
        var state := if hasShell then ToggledWings(dataWings) else "open";
        SetWingsState(state, ring);
      }
    }

    /** The render steps that default the wings to closed (the first time only, and only when the
        shell has no `data-wings` yet), attach the resize listener, hook the drag (once, a no-op
        without a ring) and hook the
        ring's click listener (once, giving the ring its pointer cursor; a later render leaves the
        cursor the drag set). */
    method OnRender()
      requires Valid()
      modifies this`dataWings, this`wingsInit, this`resizeHooked, this`dragHooked, this`ringCursor,
        this`ringHooked
      ensures Valid()
      ensures wingsInit && resizeHooked && dragHooked && ringHooked == hasRing
      ensures dataWings == if !old(wingsInit) && hasShell && old(dataWings).Absent? then Value("closed") else old(dataWings)
      ensures ringCursor == if hasRing && !old(ringHooked) then "pointer" else old(ringCursor)
    {
      if !wingsInit {
        if hasShell && dataWings.Absent? {
          dataWings := Value("closed");
        }
        wingsInit := true;
      }
      resizeHooked := true;
      dragHooked := true;
      if hasRing && !ringHooked {
        ringCursor := "pointer";
        ringHooked := true;
      }
    }

    // ------------------------------------------------------------ animation frames

    /**
     * Runs the oldest pending callback. The end of a drag clears `_isDragging`; the compensation
     * reads the ring's box `ring` now and moves the HUD back by the drift of its centre when
     * that exceeds 0.5 px.
     */
    method RunNextFrame(ring: Rect)
      requires Valid() && frames != []
      modifies this`isDragging, this`left, this`frames
      ensures Valid()
      ensures frames == old(frames[1..])
      ensures old(frames[0]).EndDrag? ==> !isDragging && left == old(left)
      ensures old(frames[0]).Compensate? ==> (isDragging == old(isDragging) &&
        left == Compensated(old(left), CenterX(ring) - old(frames[0]).cxPre))
    {
      var f := frames[0];
      frames := frames[1..];
      match f
      case EndDrag =>
        isDragging := false;
      case Compensate(cxPre) =>
        var dx := CenterX(ring) - cxPre;
        if Abs(dx) > DRIFT_TOLERANCE {
          var currentLeft := LeftValue(left);
          if currentLeft.Some? {
            left := Px(currentLeft.value - dx);
          }
        }
    }

    // ------------------------------------------------------------ panels

    /** The panel open now, "" for none. */
    function Open(): string
      reads this
    {
      OpenName(dataOpen)
    }

    /** `setOpen(name)` of the HUD's own toggler, which acts on the shell; without a shell no
        toggler is attached. */
    method SetOpen(name: string)
      requires Valid()
      modifies this`dataOpen, aria
      ensures Valid()
      ensures hasShell ==> dataOpen == Value(NextOpen(old(Open()), name)) && AriaAgrees(aria, tabs, dataOpen)
      ensures !hasShell ==> dataOpen == old(dataOpen) && aria[..] == old(aria[..])
    {
      if hasShell {
        var next := NextOpen(OpenName(dataOpen), name);
        dataOpen := Value(next);
        MarkExpanded(aria, tabs, next);
      }
    }

    /** A click on tab i. */
    method OnTabClick(i: nat)
      requires Valid() && i < |tabs|
      modifies this`dataOpen, aria
      ensures Valid()
      ensures hasShell ==> dataOpen == Value(NextOpen(old(Open()), tabs[i])) && AriaAgrees(aria, tabs, dataOpen)
      ensures !hasShell ==> dataOpen == old(dataOpen) && aria[..] == old(aria[..])
    {
      SetOpen(tabs[i]);
    }

    /** A key pressed inside the HUD, on tab `tab` when there is one: Enter and Space act as a click
        on the tab, then Escape reaching the root closes the open panel. */
    method OnKeyDown(key: string, tab: Option<nat>)
      requires Valid() && (tab.Some? ==> tab.value < |tabs|)
      modifies this`dataOpen, aria
      ensures Valid()
      ensures hasShell && tab.Some? && (key == "Enter" || key == " ") ==>
        dataOpen == Value(NextOpen(old(Open()), tabs[tab.value])) && AriaAgrees(aria, tabs, dataOpen)
      ensures hasShell && key == "Escape" ==> dataOpen == Value("") && AriaAgrees(aria, tabs, dataOpen)
      ensures !hasShell || (key != "Escape" && !(tab.Some? && (key == "Enter" || key == " "))) ==>
        dataOpen == old(dataOpen) && aria[..] == old(aria[..])
    {
      if tab.Some? && (key == "Enter" || key == " ") {
        SetOpen(tabs[tab.value]);
      }
      if key == "Escape" {
        SetOpen("");
      }
    }

    /** The document's capturing pointer-down listener: outside the HUD it closes the open panel. */
    method OnDocumentPointerDown(insideRoot: bool)
      requires Valid()
      modifies this`dataOpen, aria
      ensures Valid()
      ensures hasShell && !insideRoot ==> dataOpen == Value("") && AriaAgrees(aria, tabs, dataOpen)
      ensures !hasShell || insideRoot ==> dataOpen == old(dataOpen) && aria[..] == old(aria[..])
    {
      if !insideRoot {
        SetOpen("");
      }
    }
  }

  // ------------------------------------------------------------ sessions

  /** A press and release on the ring with no move in between: the position, the time stamp and
      the dragging flag stay as they were, and a click right after it is not suppressed by it. */
  method PressWithoutMove(h: Hud, x: real, y: real, app: Rect, now: int)
    requires h.Valid() && !h.listening && h.hasRing && h.dragHooked
    modifies h
    ensures h.Valid()
    ensures h.left == old(h.left) && h.top == old(h.top) && h.bottom == old(h.bottom)
    ensures h.justDraggedTs == old(h.justDraggedTs) && h.isDragging == old(h.isDragging)
    ensures !h.listening && h.frames == old(h.frames) + [EndDrag]
  {
    h.OnPointerDown(0, x, y, app);
    h.OnPointerUp(now);
  }

  /**
   * A drag of the anchored HUD: press, one move, release, the frame after it, then a resize.
   * The release stamps the time, so a click within 160 ms is ignored; once the frame has run
   * the next resize puts the HUD back at the bottom anchor.
   */
  method DragThenResize(h: Hud, x0: real, y0: real, app: Rect, x1: real, y1: real, now: int,
                        ring: Rect, rect: Rect, innerWidth: real)
    requires h.Valid() && !h.listening && h.hasRing && h.dragHooked && h.resizeHooked
    requires h.frames == [] && now != 0
    modifies h
    ensures h.Valid() && !h.isDragging && !h.listening && h.frames == []
    ensures h.justDraggedTs == now && ClickSuppressed(h.justDraggedTs, now + CLICK_GUARD_MS - 1)
    ensures h.bottom == Px(BOTTOM_OFFSET) && h.top == Auto &&
      h.left == Px(CenteredLeft(innerWidth, rect.width))
  {
    h.OnPointerDown(0, x0, y0, app);
    h.OnPointerMove(x1, y1, app);
    assert h.isDragging && h.bottom == Auto;
    h.OnPointerUp(now);
    assert h.frames == [EndDrag];
    h.RunNextFrame(ring);
    h.OnResize(Some(rect), innerWidth);
  }

  /** Closing the wings while a panel is open closes the panel, but its tab keeps
      `aria-expanded="true"`: the two no longer agree. */
  method CloseWingsLeavesTabExpanded(h: Hud, i: nat, ring: Rect)
    requires h.Valid() && h.hasShell && h.hasLeftWing && h.hasRightWing && h.hasRing
    requires i < |h.tabs| && h.tabs[i] != "" && h.Open() == h.tabs[i]
    requires AriaAgrees(h.aria, h.tabs, h.dataOpen)
    modifies h
    ensures h.Valid() && h.Open() == "" && h.leftInert && h.rightInert
    ensures h.aria[i] == Value("true") && !AriaAgrees(h.aria, h.tabs, h.dataOpen)
  {
    assert h.aria[i] == Value(Expanded(h.tabs, h.Open())[i]);
    h.SetWingsState("closed", ring);
    assert Expanded(h.tabs, h.Open())[i] == "false";
  }

  /** A render, a press and release on the ring, then another render: the second render does not
      hook the ring again, so it keeps the "grab" cursor the release gave it. */
  method RerenderKeepsGrab(h: Hud, x: real, y: real, app: Rect, now: int)
    requires h.Valid() && !h.listening && h.hasRing
    modifies h
    ensures h.Valid() && h.ringHooked && h.ringCursor == "grab"
  {
    h.OnRender();
    h.OnPointerDown(0, x, y, app);
    h.OnPointerUp(now);
    h.OnRender();
  }
}
