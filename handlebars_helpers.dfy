/**
 * The template helpers of module/helpers/handlebars-helpers.mjs: the resource an item
 * tracks (`getResourceInfo` with its nested `determineIfEditable` and `resolveMaxValue`),
 * `signed`, the variadic `and`, `or` and `concat`, and `l`.
 *
 * An item is the part of the host document the helpers read. `foundry.utils.getProperty`
 * on the owning actor, used for "@"-maxima, is a parameter: the text form of the value at
 * a path, `None` when it is undefined or the lookup threw (the source turns both into null).
 */
module HandlebarsHelpers {
  import opened Wrappers
  import opened Text
  import opened Js
  import I18n

  /** `{ max, value }` of item-level or action-level uses. `max` is a formula string: a number
      or an "@path" into the actor. */
  datatype Uses = Uses(max: Option<string>, value: Option<int>)

  datatype Action = Action(id: string, uses: Option<Uses>)

  /** `system.actions`: the host's Collection (a Map with `contents` and `size`) or a plain object. */
  datatype Actions = Collection(contents: seq<Action>) | PlainObject(values: seq<Action>)

  datatype Resource = Resource(value: Option<int>, max: Option<string>)

  /** The fields of `item.system` the helper reads; a missing `system` is all-`None`. */
  datatype ItemSystem = ItemSystem(
    quantity: Option<int>,
    uses: Option<Uses>,
    actions: Option<Actions>,
    resource: Option<Resource>)

  datatype Item = Item(kind: string, system: ItemSystem, hasParent: bool)

  /** What the helper returns for the tracked resource. */
  datatype ResourceInfo = ResourceInfo(field: string, value: int, max: Option<int>, editable: bool)

  type PropertyLookup = string -> Option<string>

  // ---------------------------------------------------------------- determineIfEditable

  /** `.contents || Object.values(actions)`: the actions in their order. */
  function ActionList(a: Actions): seq<Action> {
    match a
    case Collection(c) => c
    case PlainObject(v) => v
  }

  /** `actions.size`: a Collection's entry count; a plain object has no `size`. */
  function ActionsSize(a: Actions): Option<nat> {
    match a
    case Collection(c) => Some(|c|)
    case PlainObject(_) => None
  }

  /**
   * `determineIfEditable(item, field)`: domain cards and action-level counters are read-only,
   * quantity and resource values are editable, item-level uses are editable only when the item
   * has no actions (or an empty collection), and any other field is editable. The source reads
   * `item.system.resource.max` for "resource.value", so it needs the resource to exist there.
   */
  function Editable(item: Item, field: string): (r: bool)
    requires field == "resource.value" ==> item.system.resource.Some?
  {
    if item.kind == "domainCard" then false
    else if StartsWith(field, "actions.") then false
    else if field == "resource.value" && (item.system.resource.value.max.None? || item.system.resource.value.max == Some("")) then true
    else if field == "resource.value" || field == "quantity" then true
    else if field == "uses.value" then
      item.system.actions.None? || ActionsSize(item.system.actions.value) == Some(0)
    else true
  }

  /** A field whose first character is not 'a' is not an action-level field. */
  lemma NotActionField(field: string)
    requires field != [] && field[0] != 'a'
    ensures !StartsWith(field, "actions.")
  {
    if |field| >= 8 {
      assert field[..8][0] == field[0];
    }
  }

  lemma EditableRules(item: Item, field: string)
    requires field == "resource.value" ==> item.system.resource.Some?
    ensures item.kind == "domainCard" ==> !Editable(item, field)
    ensures StartsWith(field, "actions.") ==> !Editable(item, field)
    ensures item.kind != "domainCard" && (field == "quantity" || field == "resource.value") ==> Editable(item, field)
    ensures item.kind != "domainCard" && field == "uses.value" ==>
      (Editable(item, field) <==> item.system.actions.None? || ActionsSize(item.system.actions.value) == Some(0))
  {
    NotActionField("quantity");
    NotActionField("resource.value");
    NotActionField("uses.value");
  }

  // ---------------------------------------------------------------- resolveMaxValue

  /** `x || null` on a parsed integer: NaN and 0 both become null. */
  function NonZero(x: Option<int>): (r: Option<int>)
    ensures r.Some? <==> (x.Some? && x.value != 0)
    ensures r.Some? ==> r.value != 0
    ensures x.Some? && x.value != 0 ==> r == x
  {
    match x
    case Some(n) => if n == 0 then None else x
    case None => None
  }

  /** The integer `parseInt` finds in an optional text (undefined parses to NaN). */
  function ParseOpt(t: Option<string>): Option<int> {
    match t
    case Some(s) => ParseInt(s)
    case None => None
  }

  /**
   * `resolveMaxValue(maxString, item)`: null for an absent or empty string; an "@path"
   * reads the path on the owning actor (null without one); a static string is parsed.
   * Either way a parse that gives NaN or 0 becomes null.
   */
  function ResolveMax(maxString: Option<string>, item: Item, getProperty: PropertyLookup): (r: Option<int>)
    ensures maxString.None? || maxString == Some("") ==> r.None?
    ensures r.Some? ==> r.value != 0
  {
    match maxString
    case None => None
    case Some(s) =>
      if s == "" then None
      else if StartsWith(s, "@") then
        (if item.hasParent then NonZero(ParseOpt(getProperty(s[1..]))) else None)
      else NonZero(ParseInt(s))
  }

  /** A static maximum written as a number resolves to that number, except 0, which is null. */
  lemma ResolveStaticNumber(n: int, item: Item, getProperty: PropertyLookup)
    ensures ResolveMax(Some(IntToString(n)), item, getProperty) == if n == 0 then None else Some(n)
  {
    var s := IntToString(n);
    assert !StartsWith(s, "@") by {
      if n >= 0 { assert IsDigit(NatToString(n)[0]); }
    }
    ParseIntToString(n);
  }

  /** A static maximum that does not start with a number resolves to null. */
  lemma ResolveStaticNonNumeric(s: string, item: Item, getProperty: PropertyLookup)
    requires s != [] && s[0] != '@'
    requires var t := TrimStart(s); t == [] || (t[0] != '+' && t[0] != '-' && !IsDigit(t[0]))
    ensures ResolveMax(Some(s), item, getProperty).None?
  {
    assert !StartsWith(s, "@") by {
      assert s[..1][0] == s[0];
    }
    ParseIntNaN(s);
    assert ResolveMax(Some(s), item, getProperty) == NonZero(ParseInt(s));
  }

  /** An "@path" maximum on an item without an owning actor resolves to null. */
  lemma ResolveComputedWithoutActor(path: string, item: Item, getProperty: PropertyLookup)
    requires !item.hasParent
    ensures ResolveMax(Some("@" + path), item, getProperty).None?
  {
    assert StartsWith("@" + path, "@");
  }

  // ---------------------------------------------------------------- getResourceInfo

  /** The uses (item-level or action-level) qualify when a non-empty max resolves to a positive number. */
  function UsesMax(uses: Option<Uses>, item: Item, getProperty: PropertyLookup): Option<int> {
    match uses
    case None => None
    case Some(u) =>
      if u.max.None? || u.max == Some("") then None
      else match ResolveMax(u.max, item, getProperty)
        case Some(m) => if m > 0 then Some(m) else None
        case None => None
  }

  function ActionField(id: string): string {
    "actions." + id + ".uses.value"
  }

  /** One action as a resource record, when its uses qualify. */
  function ActionInfo(a: Action, item: Item, getProperty: PropertyLookup): (r: Option<ResourceInfo>)
    ensures r.None? <==> UsesMax(a.uses, item, getProperty).None?
    ensures r.Some? ==> StartsWith(r.value.field, "actions.") && !r.value.editable
  {
    match UsesMax(a.uses, item, getProperty)
    case Some(m) =>
      assert StartsWith(ActionField(a.id), "actions.");
      Some(ResourceInfo(ActionField(a.id), a.uses.value.value.GetOr(0), Some(m), Editable(item, ActionField(a.id))))
    case None => None
  }

  /** A loop that returns from inside: the first `f(x)` that is not null, over `xs` in order. */
  function FirstSome<T, R>(xs: seq<T>, f: T -> Option<R>): (r: Option<R>)
    ensures r.None? <==> forall i :: 0 <= i < |xs| ==> f(xs[i]).None?
    ensures r.Some? ==> exists i :: 0 <= i < |xs| && f(xs[i]) == r
  {
    if xs == [] then None
    else match f(xs[0])
      case Some(v) => Some(v)
      case None =>
        assert forall i :: 1 <= i < |xs| ==> xs[i] == xs[1..][i - 1];
        FirstSome(xs[1..], f)
  }

  /** The loop returns what the first non-null element gives. */
  lemma {:induction false} FirstSomeIs<T, R>(xs: seq<T>, f: T -> Option<R>, i: nat)
    requires i < |xs| && f(xs[i]).Some?
    requires forall j :: 0 <= j < i ==> f(xs[j]).None?
    ensures FirstSome(xs, f) == f(xs[i])
  {
    if i > 0 {
      assert f(xs[0]).None?;
      assert xs[1..][i - 1] == xs[i];
      FirstSomeIs(xs[1..], f, i - 1);
    }
  }

  /** The loop over the actions: the first one whose uses qualify, as a resource record. */
  function FirstActionUses(actions: seq<Action>, item: Item, getProperty: PropertyLookup): (r: Option<ResourceInfo>)
    ensures r.None? <==> forall i :: 0 <= i < |actions| ==> UsesMax(actions[i].uses, item, getProperty).None?
    ensures r.Some? ==> StartsWith(r.value.field, "actions.") && !r.value.editable
  {
    FirstSome(actions, a => ActionInfo(a, item, getProperty))
  }

  /**
   * `getResourceInfo(item)`: the tracked resource in strict priority order: a non-null
   * quantity; item-level uses with a positive maximum; the first action whose uses have a
   * positive maximum; a resource with a non-null value; otherwise null. A missing or falsy
   * current value reads as 0.
   */
  function GetResourceInfo(item: Item, getProperty: PropertyLookup): (r: Option<ResourceInfo>)
    ensures r.Some? ==> (r.value.field == "resource.value" ==> item.system.resource.Some?)
    ensures r.Some? ==> r.value.editable == Editable(item, r.value.field)
  {
    NotActionField("resource.value");
    var sys := item.system;
    if sys.quantity.Some? then
      Some(ResourceInfo("quantity", sys.quantity.value, None, Editable(item, "quantity")))
    else if UsesMax(sys.uses, item, getProperty).Some? then
      Some(ResourceInfo("uses.value", sys.uses.value.value.GetOr(0), UsesMax(sys.uses, item, getProperty),
        Editable(item, "uses.value")))
    else if sys.actions.Some? && FirstActionUses(ActionList(sys.actions.value), item, getProperty).Some? then
      var info := FirstActionUses(ActionList(sys.actions.value), item, getProperty).value;
      assert StartsWith(info.field, "actions.");
      Some(info)
    else if sys.resource.Some? && sys.resource.value.value.Some? then
      Some(ResourceInfo("resource.value", sys.resource.value.value.value,
        ResolveMax(sys.resource.value.max, item, getProperty), Editable(item, "resource.value")))
    else None
  }

  /** The priority order: each source is taken exactly when every earlier one fails, with the
      record the source builds for it, and the result is null exactly when none applies. */
  lemma GetResourceInfoPriority(item: Item, getProperty: PropertyLookup)
    ensures var sys := item.system;
      var r := GetResourceInfo(item, getProperty);
      && (sys.quantity.Some? ==> r == Some(ResourceInfo("quantity", sys.quantity.value, None, item.kind != "domainCard")))
      && (sys.quantity.None? && UsesMax(sys.uses, item, getProperty).Some? ==>
            r == Some(ResourceInfo("uses.value", sys.uses.value.value.GetOr(0), UsesMax(sys.uses, item, getProperty),
              item.kind != "domainCard" && (sys.actions.None? || ActionsSize(sys.actions.value) == Some(0)))))
      && (sys.quantity.None? && UsesMax(sys.uses, item, getProperty).None? && sys.actions.Some? &&
          FirstActionUses(ActionList(sys.actions.value), item, getProperty).Some? ==>
            r == FirstActionUses(ActionList(sys.actions.value), item, getProperty))
      && (sys.quantity.None? && UsesMax(sys.uses, item, getProperty).None? &&
          (sys.actions.None? || FirstActionUses(ActionList(sys.actions.value), item, getProperty).None?) &&
          sys.resource.Some? && sys.resource.value.value.Some? ==>
            r == Some(ResourceInfo("resource.value", sys.resource.value.value.value,
              ResolveMax(sys.resource.value.max, item, getProperty), item.kind != "domainCard")))
      && (r.Some? && r.value.field == "quantity" ==> sys.quantity.Some?)
      && (r.Some? && r.value.field == "uses.value" ==>
            sys.quantity.None? && UsesMax(sys.uses, item, getProperty).Some?)
      && (r.Some? && StartsWith(r.value.field, "actions.") ==>
            sys.quantity.None? && UsesMax(sys.uses, item, getProperty).None? && !r.value.editable)
      && (r.Some? && r.value.field == "resource.value" ==>
            sys.quantity.None? && UsesMax(sys.uses, item, getProperty).None? && sys.resource.Some? && sys.resource.value.value.Some? &&
            (sys.actions.None? || forall a :: a in ActionList(sys.actions.value) ==> UsesMax(a.uses, item, getProperty).None?))
      && (r.None? <==> (sys.quantity.None? && UsesMax(sys.uses, item, getProperty).None? &&
            (sys.actions.None? || FirstActionUses(ActionList(sys.actions.value), item, getProperty).None?) &&
            (sys.resource.None? || sys.resource.value.value.None?)))
  {
    var sys := item.system;
    var r := GetResourceInfo(item, getProperty);
    NotActionField("quantity");
    NotActionField("resource.value");
    NotActionField("uses.value");
    if r.Some? && r.value.field == "resource.value" && sys.actions.Some? {
      var list := ActionList(sys.actions.value);
      assert FirstActionUses(list, item, getProperty).None?;
      forall a | a in list ensures UsesMax(a.uses, item, getProperty).None? {
        var i :| 0 <= i < |list| && list[i] == a;
      }
    }
  }

  /** The action loop stops at the first action whose uses qualify. */
  lemma FirstActionUsesIs(actions: seq<Action>, item: Item, getProperty: PropertyLookup, i: nat)
    requires i < |actions| && UsesMax(actions[i].uses, item, getProperty).Some?
    requires forall j :: 0 <= j < i ==> UsesMax(actions[j].uses, item, getProperty).None?
    ensures FirstActionUses(actions, item, getProperty) ==
      Some(ResourceInfo(ActionField(actions[i].id), actions[i].uses.value.value.GetOr(0),
        UsesMax(actions[i].uses, item, getProperty), Editable(item, ActionField(actions[i].id))))
  {
    var f := a => ActionInfo(a, item, getProperty);
    assert forall j :: 0 <= j < i ==> f(actions[j]).None?;
    FirstSomeIs(actions, f, i);
  }

  /** Among the actions, the first one with a positive maximum is reported, read-only, under the field
      "actions." + id + ".uses.value". */
  lemma FirstQualifyingActionWins(item: Item, getProperty: PropertyLookup, i: nat)
    requires item.system.quantity.None? && UsesMax(item.system.uses, item, getProperty).None?
    requires item.system.actions.Some?
    requires var list := ActionList(item.system.actions.value);
      i < |list| && UsesMax(list[i].uses, item, getProperty).Some? &&
      forall j :: 0 <= j < i ==> UsesMax(list[j].uses, item, getProperty).None?
    ensures var a := ActionList(item.system.actions.value)[i];
      GetResourceInfo(item, getProperty) ==
        Some(ResourceInfo("actions." + a.id + ".uses.value", a.uses.value.value.GetOr(0),
          UsesMax(a.uses, item, getProperty), false))
  {
    var list := ActionList(item.system.actions.value);
    FirstActionUsesIs(list, item, getProperty, i);
    assert StartsWith(ActionField(list[i].id), "actions.");
  }

  // ---------------------------------------------------------------- signed

  /** `signed(v)`: `Number(v) || 0` (None stands for NaN), then "+n" for a positive n and plain "n" otherwise. */
  function Signed(v: Option<int>): (r: string)
    ensures |r| >= 1
    ensures r[0] == '+' <==> v.GetOr(0) > 0
    ensures r[0] == '-' <==> v.GetOr(0) < 0
  {
    var n := v.GetOr(0);
    if n > 0 then "+" + NatToString(n) else IntToString(n)
  }

  /** Reading a signed rendering back with `parseInt` gives the number (0 for NaN). */
  lemma SignedReadsBack(v: Option<int>)
    ensures ParseInt(Signed(v)) == Some(v.GetOr(0))
  {
    var n := v.GetOr(0);
    if n > 0 {
      ParsePlusNat(n);
    } else {
      ParseIntToString(n);
    }
  }

  // ---------------------------------------------------------------- and / or / concat

  /** `args.slice(0, -1)`: everything but the trailing Handlebars options object. */
  function DropLast(args: seq<Value>): seq<Value> {
    if args == [] then [] else args[..|args| - 1]
  }

  /** `xs.every(Boolean)`. */
  function Every(xs: seq<Value>): (r: bool)
    ensures r <==> forall i :: 0 <= i < |xs| ==> Truthy(xs[i])
  {
    xs == [] || (Truthy(xs[0]) && Every(xs[1..]))
  }

  /** `xs.some(Boolean)`. */
  function Any(xs: seq<Value>): (r: bool)
    ensures r <==> exists i :: 0 <= i < |xs| && Truthy(xs[i])
  {
    xs != [] && (Truthy(xs[0]) || Any(xs[1..]))
  }

  /** The `and` helper: every argument but the last is truthy. */
  function And(args: seq<Value>): (r: bool)
    ensures r <==> forall i :: 0 <= i < |args| - 1 ==> Truthy(args[i])
  {
    Every(DropLast(args))
  }

  /** The `or` helper: some argument but the last is truthy. */
  function Or(args: seq<Value>): (r: bool)
    ensures r <==> exists i :: 0 <= i < |args| - 1 && Truthy(args[i])
  {
    Any(DropLast(args))
  }

  /** The `concat` helper: every argument but the last, as `join("")` renders it, end to end. */
  function Concat(args: seq<Value>): (r: string)
    ensures r == Flatten(JoinElements(DropLast(args)))
  {
    JoinWithEmpty(JoinElements(DropLast(args)));
    JoinWith(JoinElements(DropLast(args)), "")
  }

  /** `concat` distributes over its arguments: the options object never shows up in the output. */
  lemma ConcatAppend(xs: seq<Value>, ys: seq<Value>, options: Value)
    ensures Concat(xs + ys + [options]) == Concat(xs + [options]) + Concat(ys + [options])
  {
    assert DropLast(xs + ys + [options]) == xs + ys;
    assert DropLast(xs + [options]) == xs;
    assert DropLast(ys + [options]) == ys;
    JoinElementsAppend(xs, ys);
    FlattenAppend(JoinElements(xs), JoinElements(ys));
  }

  // ---------------------------------------------------------------- l

  /** What a helper hands back to Handlebars: a `SafeString` is inserted as it is, a plain string
      is HTML-escaped first. */
  datatype Rendered = SafeString(text: string) | PlainString(text: string)

  /** Whether one of the service calls the `l` helper makes throws. */
  predicate LocalizeThrows(i18n: Option<I18n.Localization>, key: string, hash: I18n.FormatData) {
    i18n.Some? &&
    if |hash| != 0 then i18n.value.format(key, hash).Threw?
    else i18n.value.has(key).Threw? || (i18n.value.has(key) == Returned(true) && i18n.value.localize(key).Threw?)
  }

  /**
   * The `l` helper: a non-empty hash is format data; with it and a `format` call, the formatted
   * text; otherwise the localized text of a known key; otherwise the key, all as a `SafeString`.
   * Anything thrown gives the key as a plain, escaped string. Its text agrees with `L` with the
   * key as fallback.
   */
  function LocalizeHelper(i18n: Option<I18n.Localization>, key: string, hash: I18n.FormatData): (r: Rendered)
    ensures r.text == I18n.L(i18n, key, None, if |hash| == 0 then None else Some(hash))
    ensures r.PlainString? <==> LocalizeThrows(i18n, key, hash)
    ensures r.PlainString? ==> r.text == key
  {
    if |hash| != 0 && i18n.Some? then
      match i18n.value.format(key, hash)
      case Returned(s) => SafeString(s)
      case Threw => PlainString(key)
    else if i18n.Some? then
      match i18n.value.has(key)
      case Threw => PlainString(key)
      case Returned(known) =>
        if !known then SafeString(key)
        else match i18n.value.localize(key)
          case Returned(s) => SafeString(s)
          case Threw => PlainString(key)
    else SafeString(key)
  }
}
