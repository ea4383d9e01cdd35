# Daggerheart HUD — a verified model of its core behaviour

This project models, in Dafny, the parts of the Daggerheart actor HUD (a heads-up display for a
virtual tabletop) that have behaviour of their own:

- **Placement, ring drag and wings** (`ActorHud`). The HUD is pinned 110 px from the bottom and
  centred. It can be dragged by its ring. A pointer-down with any button but the primary one starts
  nothing. The first move leaves the bottom anchor, and every move places the HUD at its start
  position plus the pointer's displacement. A release stamps `_justDraggedTs` only after a real move.
  The `_isDragging` flag clears one animation frame later, so the next window resize puts a dragged
  HUD back at the bottom anchor; the model follows the code here. A ring click toggles the wings,
  except within 160 ms of a drag. Changing the wings sets `data-wings` and `inert`. Closing them
  closes the open panel. One frame later `left` is shifted to cancel any drift of the ring's centre
  larger than 0.5 px. The class `ActorHud.Hud` holds the style values, attributes and flags as
  fields. Bounding boxes, `window.innerWidth` and `Date.now()` are parameters. Pending
  `requestAnimationFrame` callbacks form a queue that `RunNextFrame` drains in order.
- **Single-open panels** (`Disclosure`, `HudToggle`, and the panel methods of `ActorHud.Hud`).
  `data-open` names the open panel ("" for none). A tab toggles its own panel and closes any other.
  Enter and Space on a tab act as a click. Escape, or a pointer-down outside the HUD, closes the open
  panel. Every tab's `aria-expanded` is then "true" exactly when its `data-tab` is the open panel.
- **Item resource classification and template helpers** (`HandlebarsHelpers`):
  - `getResourceInfo`, in its fixed priority order (quantity, item uses, action uses, resource),
    with `determineIfEditable` and `resolveMaxValue`;
  - `signed`, `and`, `or` and `concat`, which drop Handlebars' trailing options argument;
  - the `l` helper.
- **Translation lookup** (`I18n`):
  - `L`, which never throws;
  - `Ltry`, which returns the first known key;
  - `Lpath`, which walks the translation tree along a dotted path by own properties;
  - `Ltrait`, which returns the name and the truthy verbs joined by ", ".

  The host's `has`, `localize` and `format` are function values that may return or throw.
- **Inline dice markup** (`InlineRolls`):
  - `pickDieIcon`, with the regular expression `/d(4|6|8|10|12|20)\b/i` written out;
  - the formula chosen for an inline-roll link;
  - the split of a text node at its first `[[/dr …]]`, with `/\[\[\/dr\s+([^\]]+)\]\]/i` written out
    as the backtracking engine matches it, and proved both sound and complete against the
    pattern's language;
  - the pass that rewrites a description's nodes, kept in an array.

Supporting modules:

- `Wrappers` holds `Option` and `Call` (a call that returns or throws).
- `Text` holds the JavaScript string primitives the code relies on: `trim` and the `\s` class, `split`
  on one character, `join`, `String(n)` and `parseInt`.
- `Js` holds JSON-shaped values, truthiness, `filter(Boolean)` and `join`'s rendering of elements.
- `Dom` holds attributes, inline style values and boxes.

## Model

| member | source | states |
|---|---|---|
| `ActorHud.CenteredLeft` | module/apps/dh-actor-hud.mjs:11-13 | the anchored `left` is never negative; the HUD's centre is the viewport's centre when it fits, and `left` is 0 when it does not |
| `ActorHud.Hud.PlaceAtBottom` | module/apps/dh-actor-hud.mjs:5-14 | unmeasurable element: no change; otherwise position absolute, bottom 110 px, top and right auto, left centred; the class invariant is kept |
| `ActorHud.Hud.OnResize` | module/apps/dh-actor-hud.mjs:191-192 | once a render has attached the listener, re-anchors at the bottom exactly when no drag is in progress, even after a drag has ended; before that a resize changes nothing |
| `ActorHud.Hud.OnPointerDown` | module/apps/dh-actor-hud.mjs:46-58 | once a render has hooked the drag, a primary-button press on the ring records pointer and HUD start positions, attaches the session listeners and shows the grabbing cursor; any other button, a HUD without a ring, or a press before the hook changes nothing |
| `ActorHud.Hud.OnPointerMove` | module/apps/dh-actor-hud.mjs:22-35 | during a session, left = startLeft + dx and top = startTop + dy, the move and dragging flags are set, and only the first move sets bottom to auto; outside a session nothing changes |
| `ActorHud.Hud.OnPointerUp` | module/apps/dh-actor-hud.mjs:37-44 | ends the session, stamps the time only if the pointer moved, always resets the move flag, and queues the frame that clears the dragging flag |
| `ActorHud.Hud.RunNextFrame` | module/apps/dh-actor-hud.mjs:85-94 | runs the oldest pending frame: the one queued at pointer-up (line 43) clears the dragging flag; the compensation sets left to `Compensated` of the drift of the ring's centre; the class invariant is kept |
| `ActorHud.Compensated` | module/apps/dh-actor-hud.mjs:88-93 | a drift of at most 0.5 px, or an unreadable left, leaves left unchanged; the result stays a readable length |
| `ActorHud.CompensationRestoresCentre` | module/apps/dh-actor-hud.mjs:71-94 | with the ring moving with the HUD, its centre after the frame is exactly the centre before the change when the drift exceeded 0.5 px, and within 0.5 px otherwise |
| `ActorHud.Hud.SetWingsState` | module/apps/dh-actor-hud.mjs:63-95 | no-op unless shell, both wings and ring exist; otherwise data-wings = state, both wings inert iff "closed", data-open cleared on closing, compensation queued with the ring's centre before the change |
| `ActorHud.ToggledWings` | module/apps/dh-actor-hud.mjs:208-209 | a ring click asks for "closed" exactly when data-wings is "open", and for "open" otherwise |
| `ActorHud.ToggleTwice` | module/apps/dh-actor-hud.mjs:207-209 | two unsuppressed ring clicks give the wings back their state |
| `ActorHud.Hud.OnRingClick` | module/apps/dh-actor-hud.mjs:202-212 | before a render has hooked the ring, within 160 ms of a drag stamp, or without a wing, nothing changes; otherwise the wings toggle as `SetWingsState` describes |
| `ActorHud.Hud.OnRender` | module/apps/dh-actor-hud.mjs:171-212 | the first render sets data-wings to "closed" only when the shell has none; later renders leave it; the resize listener is attached and the drag is hooked; the ring is hooked once, and only that first hook gives it the pointer cursor, so a later render keeps the cursor a drag left |
| `ActorHud.Hud.constructor` | module/apps/dh-actor-hud.mjs:148-152 | a HUD before its first render has no inline style, no hooked listener, no drag session, no stamp and no pending frame, and satisfies the class invariant |
| `ActorHud.Hud.SetOpen` | module/apps/dh-actor-hud.mjs:107-112 | with a shell: data-open becomes `NextOpen` of the open panel and every tab's aria-expanded agrees with it; without one nothing changes |
| `ActorHud.Hud.OnTabClick` | module/apps/dh-actor-hud.mjs:114-115 | a tab click is `setOpen` of its data-tab |
| `ActorHud.Hud.OnKeyDown` | module/apps/dh-actor-hud.mjs:116-130 | Enter or Space on a tab acts as a click on it; Escape closes the open panel; other keys change nothing |
| `ActorHud.Hud.OnDocumentPointerDown` | module/apps/dh-actor-hud.mjs:122-125 | a pointer-down outside the HUD closes the open panel; inside, nothing changes |
| `ActorHud.PressWithoutMove` | module/apps/dh-actor-hud.mjs:37-58 | press and release with no move leave left, top, bottom, the stamp and the dragging flag as they were |
| `ActorHud.DragThenResize` | module/apps/dh-actor-hud.mjs:22-44 | press, move and release stamp the time (a click within 160 ms is then ignored); after the next frame a resize snaps the HUD back to the bottom anchor (line 191) |
| `ActorHud.RerenderKeepsGrab` | module/apps/dh-actor-hud.mjs:202-204 | scenario: render, press and release on the ring, render again: the ring stays hooked and keeps the "grab" cursor |
| `ActorHud.CloseWingsLeavesTabExpanded` | module/apps/dh-actor-hud.mjs:79-82 | closing the wings with a panel open closes the panel but leaves its tab's aria-expanded "true", so the tabs no longer agree with data-open |
| `Disclosure.NextOpen` | module/ui/dh-hud-toggle.mjs:7-8 | the next open panel is "" or the name; it is "" exactly when the name was already open or is ""; any other name opens |
| `Disclosure.TwoTogglesClose` | module/ui/dh-hud-toggle.mjs:7-9 | from closed, the same name twice returns to closed |
| `Disclosure.ClosingCollapsesAll` | module/ui/dh-hud-toggle.mjs:8-10 | `setOpen("")` closes every panel whatever was open and collapses every named tab |
| `Disclosure.Expanded` | module/ui/dh-hud-toggle.mjs:10 | one flag per tab, "true" exactly when its data-tab is the open panel, otherwise "false" |
| `Disclosure.AtMostOneExpanded` | module/ui/dh-hud-toggle.mjs:10 | with distinct data-tab names at most one tab is expanded |
| `Disclosure.MarkExpanded` | module/ui/dh-hud-toggle.mjs:10 | the loop writes every tab's aria-expanded as `Expanded` says |
| `HudToggle.Toggler.constructor` | module/ui/dh-hud-toggle.mjs:2-4 | the toggler attaches to a root's tabs with their aria attributes and the root's data-open |
| `HudToggle.Toggler.SetOpen` | module/ui/dh-hud-toggle.mjs:6-11 | data-open becomes `NextOpen` of the open panel, every tab's aria-expanded agrees with it, and nothing else changes |
| `HudToggle.Toggler.OnTabClick` | module/ui/dh-hud-toggle.mjs:13-14 | a tab click is `setOpen` of its data-tab |
| `HudToggle.Toggler.OnKeyDown` | module/ui/dh-hud-toggle.mjs:15-29 | Enter or Space on a tab acts as a click on it; Escape inside the root closes the open panel; other keys change nothing |
| `HudToggle.Toggler.OnDocumentPointerDown` | module/ui/dh-hud-toggle.mjs:21-24 | outside the root the open panel closes; inside nothing changes |
| `HudToggle.ClickTwiceCloses` | module/ui/dh-hud-toggle.mjs:6-14 | two clicks on a tab, from closed, leave every panel closed and the tabs in agreement |
| `HandlebarsHelpers.EditableRules` | module/helpers/handlebars-helpers.mjs:20-39 | domain cards and "actions." fields are never editable; otherwise quantity and resource.value are; uses.value is editable iff there are no actions or an empty collection |
| `HandlebarsHelpers.NonZero` | module/helpers/handlebars-helpers.mjs:51 | the result is non-null exactly when the parse gave a non-zero number, and is then that number; NaN and 0 become null |
| `HandlebarsHelpers.ResolveMax` | module/helpers/handlebars-helpers.mjs:42-62 | an absent or empty maximum is null, and a resolved maximum is never 0 |
| `HandlebarsHelpers.ResolveStaticNumber` | module/helpers/handlebars-helpers.mjs:59 | a static maximum written as the integer n resolves to n, except 0, which is null |
| `HandlebarsHelpers.ResolveStaticNonNumeric` | module/helpers/handlebars-helpers.mjs:59 | a static maximum whose first non-blank character is not a sign or digit resolves to null |
| `HandlebarsHelpers.ResolveComputedWithoutActor` | module/helpers/handlebars-helpers.mjs:45-52 | an "@path" maximum on an item with no owning actor resolves to null |
| `HandlebarsHelpers.ActionInfo` | module/helpers/handlebars-helpers.mjs:93-103 | an action gives a record iff its uses have a positive maximum; the record's field starts with "actions." and is read-only |
| `HandlebarsHelpers.FirstSome` | module/helpers/handlebars-helpers.mjs:92-105 | the loop returns null iff no element gives a record, and otherwise what one of the elements gives |
| `HandlebarsHelpers.FirstSomeIs` | module/helpers/handlebars-helpers.mjs:92-105 | the loop returns what the first element that gives a record gives |
| `HandlebarsHelpers.FirstActionUses` | module/helpers/handlebars-helpers.mjs:90-106 | no action qualifies iff every action's uses lack a positive maximum; a found one has a read-only "actions." field |
| `HandlebarsHelpers.FirstActionUsesIs` | module/helpers/handlebars-helpers.mjs:92-103 | the loop returns the first qualifying action, with its value defaulting to 0 |
| `HandlebarsHelpers.GetResourceInfo` | module/helpers/handlebars-helpers.mjs:16-121 | the reported editability is `determineIfEditable` of the reported field, which the item supports |
| `HandlebarsHelpers.GetResourceInfoPriority` | module/helpers/handlebars-helpers.mjs:64-120 | strict priority, each source taken exactly when the earlier ones fail, with its record: quantity (max null, editable unless a domain card), then item uses with a positive max (value or 0), then the first qualifying action (read-only), then a resource with a value (its resolved max, editable unless a domain card); each field returned implies the earlier sources failed; null exactly when none applies |
| `HandlebarsHelpers.FirstQualifyingActionWins` | module/helpers/handlebars-helpers.mjs:89-106 | with no quantity or item uses, the first action with a positive maximum is reported under "actions." + id + ".uses.value", read-only |
| `HandlebarsHelpers.Signed` | module/helpers/handlebars-helpers.mjs:127-130 | the text starts with "+" iff the number (NaN read as 0) is positive, and with "-" iff it is negative |
| `HandlebarsHelpers.SignedReadsBack` | module/helpers/handlebars-helpers.mjs:127-130 | `parseInt` of the signed text gives the number back (0 for NaN) |
| `HandlebarsHelpers.Every` | module/helpers/handlebars-helpers.mjs:139 | true iff every element is truthy |
| `HandlebarsHelpers.Any` | module/helpers/handlebars-helpers.mjs:140 | true iff some element is truthy |
| `HandlebarsHelpers.And` | module/helpers/handlebars-helpers.mjs:139 | true iff every argument but the last is truthy |
| `HandlebarsHelpers.Or` | module/helpers/handlebars-helpers.mjs:140 | true iff some argument but the last is truthy |
| `HandlebarsHelpers.Concat` | module/helpers/handlebars-helpers.mjs:144 | the arguments but the last, rendered as `join` renders them, end to end |
| `HandlebarsHelpers.ConcatAppend` | module/helpers/handlebars-helpers.mjs:144 | concat distributes over its arguments; the options object never appears |
| `HandlebarsHelpers.LocalizeHelper` | module/helpers/handlebars-helpers.mjs:151-164 | the `l` helper's text agrees with `L` with the key as fallback, a non-empty hash being the format data; the result is a plain (escaped) string, holding the key, exactly when a service call throws, and a `SafeString` otherwise |
| `I18n.L` | module/helpers/i18n.mjs:4-13 | without data: `localize(key)` when `has(key)` holds and nothing throws, else the fallback (default the key); with data: `format`'s result, else the fallback; never throws |
| `I18n.FirstProbed` | module/helpers/i18n.mjs:17-18 | the first key whose `has` probe is not false; every earlier probe said false; none iff every probe said false |
| `I18n.Ltry` | module/helpers/i18n.mjs:16-23 | the translation of the first key known, in list order; a throwing probe propagates; with no known key, fallback ?? keys[0] ?? "" |
| `I18n.FirstProbedIs` | module/helpers/i18n.mjs:17-21 | the early return happens at the first key whose probe is not false |
| `I18n.Lookup` | module/helpers/i18n.mjs:31 | an own property found by name is the value of an entry with that name; none iff no entry has it |
| `I18n.LookupFirst` | module/helpers/i18n.mjs:31 | the first entry with a name is the one a lookup of that name finds |
| `I18n.Lpath` | module/helpers/i18n.mjs:26-35 | the loop's result is the walk from the translation root along the "."-separated segments |
| `I18n.WalkAppend` | module/helpers/i18n.mjs:30-34 | walking a concatenated path walks the first part, then the second from where it ended |
| `I18n.LpathCompose` | module/helpers/i18n.mjs:28-34 | `Lpath(a + "." + b)` is the lookup of b inside `Lpath(a)` |
| `I18n.WalkStopsAtMissing` | module/helpers/i18n.mjs:31-32 | once a segment is missing or the value reached is falsy, the lookup is undefined |
| `I18n.ArrayIndexProperty` | module/helpers/i18n.mjs:31 | an array owns its canonical indices, so a path can step into arrays |
| `I18n.CanonicalIndexOfNat` | module/helpers/i18n.mjs:31 | a number's decimal rendering is that number's canonical index, and never "length" |
| `I18n.ObjectValues` | module/helpers/i18n.mjs:42 | one value per entry of an object; as many values as an array's or a string's `length`; none for other values |
| `I18n.LookupInValues` | module/helpers/i18n.mjs:42 | every value an object's own property gives is among its values |
| `I18n.ObjectValuesOfEntries` | module/helpers/i18n.mjs:42 | each value of an object is what an own-property read of its entry's name gives, for the first entry with that name |
| `I18n.ObjectValuesOfIndices` | module/helpers/i18n.mjs:42 | each value of an array or a string is what an own-property read of its index gives |
| `I18n.Ltrait` | module/helpers/i18n.mjs:38-45 | the name is `L` of the trait's name key with the key as fallback; the verbs are exactly the truthy values of the verb subtree, in order, each truthy and a value of the subtree; the description is the verbs joined with ", " |
| `I18n.LtraitKeepsTruthy` | module/helpers/i18n.mjs:41-42 | every truthy value of the verb subtree is among the verbs |
| `I18n.LtraitStringVerbs` | module/helpers/i18n.mjs:41-43 | a verb subtree of non-empty strings keeps all of them, in order, and the description joins them |
| `I18n.AllStringsKept` | module/helpers/i18n.mjs:42 | `filter(Boolean)` keeps every non-empty string |
| `Js.JoinElements` | module/helpers/i18n.mjs:43 | one piece per element; a string renders as itself, null and undefined as the empty piece |
| `Js.JoinElementsAppend` | module/helpers/i18n.mjs:43 | rendering a concatenation of elements concatenates the renderings |
| `Js.FilterTruthy` | module/helpers/i18n.mjs:42 | every kept element is truthy and comes from the input |
| `Js.FilterTruthyAppend` | module/helpers/i18n.mjs:42 | filtering keeps the order of the survivors |
| `Js.FilterTruthyKeeps` | module/helpers/i18n.mjs:42 | no truthy element is dropped |
| `Text.Trim` | module/helpers/inline-rolls.mjs:36 | the result is the input with only white space cut from each end, and neither end is white space |
| `Text.Split` | module/helpers/i18n.mjs:28 | at least one segment, and no segment contains the separator |
| `Text.SplitJoin` | module/helpers/i18n.mjs:28 | joining the segments with the separator gives the path back |
| `Text.SplitAppend` | module/helpers/i18n.mjs:28 | the segments of a + "." + b are those of a followed by those of b |
| `Text.JoinWithEmpty` | module/helpers/handlebars-helpers.mjs:144 | `join("")` is plain concatenation |
| `Text.FlattenAppend` | module/helpers/handlebars-helpers.mjs:144 | concatenation distributes over appended lists |
| `Text.NatToString` | module/helpers/handlebars-helpers.mjs:129 | the rendering of a natural number is digits only, with no leading zero |
| `Text.ParseIntToString` | module/helpers/handlebars-helpers.mjs:59 | `parseInt(String(n)) === n` for every integer |
| `Text.ParseNat` | module/helpers/handlebars-helpers.mjs:59 | `parseInt` reads the decimal rendering of a natural number back as that number |
| `Text.ParseNegatedNat` | module/helpers/handlebars-helpers.mjs:59 | `parseInt` reads "-" before a rendered natural number as its negation |
| `Text.ParsePlusNat` | module/helpers/handlebars-helpers.mjs:129 | `parseInt` reads "+" before a rendered natural number as that number |
| `Text.ParseIntSignedDigits` | module/helpers/handlebars-helpers.mjs:59 | an optional sign before text that starts with a digit negates (for "-") or keeps what the digits read as |
| `Text.NoLeadingDigit` | module/helpers/handlebars-helpers.mjs:59 | text that does not start with a digit holds no number |
| `Text.ParseIntNaN` | module/helpers/handlebars-helpers.mjs:59 | a string whose first non-blank character is not a sign or digit parses to NaN |
| `InlineRolls.FacesAt` | module/helpers/inline-rolls.mjs:21 | a found alternative is one of the die sizes, is the text at that position and is followed by `\b`; none exactly when no alternative is followed by `\b` there |
| `InlineRolls.FaceLength` | module/helpers/inline-rolls.mjs:21 | the text decides a matching alternative's length: two digits exactly when a word character follows the first |
| `InlineRolls.FacesUnique` | module/helpers/inline-rolls.mjs:21 | at most one die alternative matches at a position |
| `InlineRolls.DieAt` | module/helpers/inline-rolls.mjs:21 | a match at a position has a "d" or "D", a die size and a word boundary after it |
| `InlineRolls.DieAtComplete` | module/helpers/inline-rolls.mjs:21 | whenever the letter, a die size and the word boundary are there, that size is captured |
| `InlineRolls.FirstFrom` | module/helpers/inline-rolls.mjs:21 | the leftmost position in a range where the search finds something, with what it found; none exactly when it finds nothing anywhere in the range |
| `InlineRolls.FirstFromIs` | module/helpers/inline-rolls.mjs:21 | a position that finds something, with nothing found before it, is the one the scan returns |
| `InlineRolls.FirstDie` | module/helpers/inline-rolls.mjs:21 | `exec` finds the leftmost position where the die pattern matches, or none when no position does |
| `InlineRolls.FirstDieFrom` | module/helpers/inline-rolls.mjs:21 | the first matching position after a match-free stretch is the one found |
| `InlineRolls.PickDieIcon` | module/helpers/inline-rolls.mjs:20-28 | the icon is always one of the six die icons |
| `InlineRolls.PickDieIconFirstMatch` | module/helpers/inline-rolls.mjs:21-27 | the leftmost die in the formula decides the icon |
| `InlineRolls.PickDieIconDefault` | module/helpers/inline-rolls.mjs:27 | with no die in the formula the icon is the d6 one |
| `InlineRolls.PickDieIconHundred` | module/helpers/inline-rolls.mjs:21-27 | scenario: "d100" gives the d6 icon: its "10" is followed by a word character |
| `InlineRolls.PickDieIconUpperCase` | module/helpers/inline-rolls.mjs:21 | scenario: "D20" gives the d20 icon: the match ignores case |
| `InlineRolls.RollFormula` | module/helpers/inline-rolls.mjs:36 | the trimmed data-formula when non-empty, else the trimmed link text; never starts or ends with white space |
| `InlineRolls.SpaceRun` | module/helpers/inline-rolls.mjs:54 | `\s+` takes the whole white-space run |
| `InlineRolls.CloseFrom` | module/helpers/inline-rolls.mjs:54 | `[^\]]+` runs to the first ']' |
| `InlineRolls.DrMatchAtSound` | module/helpers/inline-rolls.mjs:54 | a match found has the pattern's shape: opener, white space, a group free of ']', then "]]" |
| `InlineRolls.DrMatchAtComplete` | module/helpers/inline-rolls.mjs:54 | wherever the pattern can match, a match is found, ending at the first ']' |
| `InlineRolls.FirstDrMatch` | module/helpers/inline-rolls.mjs:54 | `match` reports the leftmost position that matches, or none when none does |
| `InlineRolls.SplitDr` | module/helpers/inline-rolls.mjs:53-59 | before + matched + after is the text; no match starts before it; the params are the trimmed text between "[[/dr" and "]]" and contain no ']'; none iff no position matches |
| `InlineRolls.SplitAt` | module/helpers/inline-rolls.mjs:57-59 | the slices around a match put the text back together and the params are well formed |
| `InlineRolls.DrPieces` | module/helpers/inline-rolls.mjs:57-59 | before, the matched markup and after put the text back together; the markup opens with "[[/" and closes with "]]" |
| `InlineRolls.SplitAtWellFormed` | module/helpers/inline-rolls.mjs:57-59 | the three slices around a match give the text back, and the split is well formed |
| `InlineRolls.DrInner` | module/helpers/inline-rolls.mjs:54 | the text between "[[/dr" and "]]" is the white space followed by the group |
| `InlineRolls.DrParams` | module/helpers/inline-rolls.mjs:58 | the trimmed group equals the trimmed text between "[[/dr" and "]]" |
| `InlineRolls.DrParamsNoClose` | module/helpers/inline-rolls.mjs:58 | the trimmed group contains no ']' |
| `InlineRolls.TrimAfterSpaces` | module/helpers/inline-rolls.mjs:58 | leading white space does not change the trimmed text |
| `InlineRolls.NoCloseInTrim` | module/helpers/inline-rolls.mjs:58 | trimming cannot introduce a ']' |
| `InlineRolls.SecondOccurrenceStaysText` | module/helpers/inline-rolls.mjs:54 | scenario: with two `[[/dr …]]` in one text node, only the first is converted and the second stays in the text after it |
| `InlineRolls.RollNode` | module/helpers/inline-rolls.mjs:35-45 | a link becomes a roll button carrying the trimmed data-formula, or the trimmed link text when that is missing or blank, and the icon that formula picks; any other node is unchanged |
| `InlineRolls.DualityNode` | module/helpers/inline-rolls.mjs:53-74 | a text node with a match becomes the wrapper of `SplitDr`'s before, trimmed params and after; a text node without one has no `[[/dr …]]` anywhere and stays; any other node is unchanged |
| `InlineRolls.DualityNodeIdempotent` | module/helpers/inline-rolls.mjs:52-75 | rewriting a node twice is rewriting it once |
| `InlineRolls.Converted` | module/helpers/inline-rolls.mjs:30-79 | an inline-roll link becomes its roll button; with duality enabled a matched text node becomes `SplitDr`'s wrapper; with duality disabled no wrapper appears; text without a match, and other elements, are unchanged |
| `InlineRolls.ConvertInlineRolls` | module/helpers/inline-rolls.mjs:35-45 | the loop replaces every link with its roll button and leaves the other nodes |
| `InlineRolls.ReplaceEach` | module/helpers/inline-rolls.mjs:35-45 | after the loop every node is what the replacement makes of the node that was there |
| `InlineRolls.CollectTextNodes` | module/helpers/inline-rolls.mjs:49-51 | the walk collects exactly the text nodes, in document order |
| `InlineRolls.ConvertDuality` | module/helpers/inline-rolls.mjs:52-75 | each collected node is rewritten once, from its text as collected, and the others are left |
| `InlineRolls.ToHudInlineButtons` | module/helpers/inline-rolls.mjs:30-79 | every node ends as a function of itself alone, so nodes inserted by the pass are never scanned again |

## Left out

- The host lifecycle is not modelled: ApplicationV2 options and parts, `getData`, the `_booted` double-frame boot sequence and the `is-booting` class. Listeners attached again on every render, and the `.dhud-roll` cursor and `aria-pressed` setup, are also not modelled. Each class models one rendered HUD with its listeners attached once.
- `attachDHUDToggles` on a missing root returns at once. The model always has a root.
- Tabs without a `data-tab` are not modelled: every tab is assumed to name its panel. In the source, such a tab would call `setOpen(undefined)` and write the text "undefined" into `data-open`.
- Pixel values are real numbers. Browser doubles, the rendering of `${n}px` and `parseFloat` rounding are not modelled. `left` is only ever unset or a length, which `ActorHud.Hud.Valid` keeps as an invariant.
- Layout is not modelled. Each bounding box is a parameter read at the moment the source reads it. `CompensationRestoresCentre` assumes that the ring moves with the HUD.
- `registerDHUDHelpers` is not modelled: its `_done` guard, the Handlebars registration and the missing-Handlebars warning.
- The `eq`, `ne`, `lt`, `lte`, `gt`, `gte`, `not` and `json` helpers are not modelled. They are one-line JavaScript operators with nothing to prove beyond the operators themselves.
- `foundry.utils.getProperty` is a parameter. It gives the text of the value at a path, or `None` when that value is undefined or the lookup throws.
- A numeric (non-string) maximum is not modelled, whether the item's `uses.max`, an action's `uses.max` or `resource.max`: each is typed as optional text. For a non-zero numeric maximum the source calls `startsWith` on a number inside `resolveMaxValue` and throws (module/helpers/handlebars-helpers.mjs:45, reached from lines 77, 94 and 110); a numeric 0 is read as null before that.
- Item quantities, current values, numbers in translation data and `signed`'s argument are integers. JavaScript numbers beyond 2^53, fractions, `Number()` coercion of arbitrary values and `Infinity` are not modelled.
- `game.i18n.format` is taken to return a string, so the `?? fallback` after it never applies. When the localization service exists, its `has`, `localize` and `format` are taken to exist too. Non-object `data` for `L` is treated as no data.
- A translation tree's objects are entry lists in own-property order. An object literal cannot hold two entries with one key, and the model does not forbid them: a lookup finds the first such entry, while `ObjectValues` keeps every entry's value. Inherited properties are ignored, as `hasOwnProperty` ignores them.
- Strings are sequences of characters. JavaScript's UTF-16 code units, surrogate pairs and `String(path)` on non-strings are not modelled.
- `enrichItemDescription` is not modelled. It is a single host `TextEditor.enrichHTML` call.
- HTML parsing and serialisation (`innerHTML`), `escapeHTML` and the attributes and classes of the generated buttons are not modelled. A description is an array of nodes in document order, in which a link carries its text.
- InlineRolls.Converted: a roll button's own label (a space and its formula) is a text node the tree walker also visits, so a formula that itself contains `[[/dr …]]` would be rewritten inside the button. The model treats generated buttons as opaque and does not capture that case.
- `module/apps/hud-rings.mjs`, `module/settings.mjs`, `module/daggerheart-hud.mjs` and `module/helpers/chat-utils.mjs` are not part of this model. They are host dialogs, settings, hook wiring and chat calls.
- Position persistence, condition toggling and resource adjustment are not modelled: none of the files above does them. The code keeps no "free" placement mode: a resize re-anchors a dragged HUD once its dragging flag has cleared. The model follows the code.
