/**
 * Translation lookup (module/helpers/i18n.mjs): `L`, `Ltry`, `Lpath` and `Ltrait`.
 * The host's localization service (`game.i18n`) is a value of `Localization`: its
 * loaded translation tree and its `has`, `localize` and `format` calls, each of which
 * may return or throw. `None` for the service means `game.i18n` is undefined.
 */
module I18n {
  import opened Wrappers
  import opened Text
  import opened Js

  /** The substitution data handed to `format`. */
  type FormatData = map<string, string>

  datatype Localization = Localization(
    translations: Value,
    has: string -> Call<bool>,
    localize: string -> Call<string>,
    format: (string, FormatData) -> Call<string>)

  // ---------------------------------------------------------------- L

  /** `game.i18n?.has?.(key)` returned true. */
  predicate Known(i18n: Option<Localization>, key: string) {
    i18n.Some? && i18n.value.has(key) == Returned(true)
  }

  /**
   * `L(key, fallback = key, data)`: with object data, the service's `format`; without, the
   * localized string when the key is known. Whatever goes wrong (no service, unknown key,
   * a call that throws) gives the fallback, which defaults to the key; nothing is thrown.
   */
  function L(i18n: Option<Localization>, key: string, fallback: Option<string>, data: Option<FormatData>): (r: string)
    ensures data.None? && Known(i18n, key) && i18n.value.localize(key).Returned?
      ==> r == i18n.value.localize(key).value
    ensures data.None? && !(Known(i18n, key) && i18n.value.localize(key).Returned?)
      ==> r == fallback.GetOr(key)
    ensures data.Some? && i18n.Some? && i18n.value.format(key, data.value).Returned?
      ==> r == i18n.value.format(key, data.value).value
    ensures data.Some? && !(i18n.Some? && i18n.value.format(key, data.value).Returned?)
      ==> r == fallback.GetOr(key)
  {
    var fb := fallback.GetOr(key);
    if data.Some? then
      match i18n
      case None => fb
      case Some(loc) =>
        match loc.format(key, data.value)
        case Threw => fb
        case Returned(s) => s
    else
      match i18n
      case None => fb
      case Some(loc) =>
        match loc.has(key)
        case Threw => fb
        case Returned(known) =>
          if !known then fb
          else
            match loc.localize(key)
            case Threw => fb
            case Returned(s) => s
  }

  // ---------------------------------------------------------------- Ltry

  /** What `game.i18n?.has?.(k)` gives: false when there is no service. */
  function Probe(i18n: Option<Localization>, k: string): Call<bool> {
    match i18n
    case None => Returned(false)
    case Some(loc) => loc.has(k)
  }

  /** The first key whose probe did not answer false (it answered true or threw). */
  function FirstProbed(i18n: Option<Localization>, keys: seq<string>): (r: Option<nat>)
    ensures r.Some? ==> r.value < |keys| && Probe(i18n, keys[r.value]) != Returned(false)
    ensures r.Some? ==> forall j :: 0 <= j < r.value ==> Probe(i18n, keys[j]) == Returned(false)
    ensures r.None? ==> forall j :: 0 <= j < |keys| ==> Probe(i18n, keys[j]) == Returned(false)
  {
    if keys == [] then None
    else if Probe(i18n, keys[0]) != Returned(false) then Some(0)
    else match FirstProbed(i18n, keys[1..])
      case None => None
      case Some(i) => Some(i + 1)
  }

  /** `fallback ?? (keys[0] ?? "")`. */
  function LtryDefault(keys: seq<string>, fallback: Option<string>): string {
    match fallback
    case Some(f) => f
    case None => if keys == [] then "" else keys[0]
  }

  /** The translation of a known key: `format` with data, `localize` without. */
  function Fetch(loc: Localization, k: string, data: Option<FormatData>): Call<string> {
    match data
    case Some(d) => loc.format(k, d)
    case None => loc.localize(k)
  }

  /**
   * `Ltry(keys, fallback, data)`: the translation of the first key, in list order, the
   * service knows; with no such key the fallback, else the first key, else "". Unlike `L`
   * it does not catch: a throwing `has`, `localize` or `format` propagates.
   */
  method Ltry(i18n: Option<Localization>, keys: seq<string>, fallback: Option<string>, data: Option<FormatData>)
    returns (r: Call<string>)
    ensures FirstProbed(i18n, keys).None? ==> r == Returned(LtryDefault(keys, fallback))
    ensures FirstProbed(i18n, keys).Some? && Probe(i18n, keys[FirstProbed(i18n, keys).value]).Threw?
      ==> r == Threw
    ensures FirstProbed(i18n, keys).Some? && Probe(i18n, keys[FirstProbed(i18n, keys).value]) == Returned(true)
      ==> i18n.Some? && r == Fetch(i18n.value, keys[FirstProbed(i18n, keys).value], data)
  {
    var i := 0;
    while i < |keys|
      invariant 0 <= i <= |keys|
      invariant forall j :: 0 <= j < i ==> Probe(i18n, keys[j]) == Returned(false)
    {
      var probe := Probe(i18n, keys[i]);
      if probe.Threw? {
        FirstProbedIs(i18n, keys, i);
        return Threw;
      }
      if probe.value {
        FirstProbedIs(i18n, keys, i);
        return Fetch(i18n.value, keys[i], data);
      }
      i := i + 1;
    }
    return Returned(LtryDefault(keys, fallback));
  }

  /** The first key whose probe is not false is the one `FirstProbed` finds. */
  lemma {:induction false} FirstProbedIs(i18n: Option<Localization>, keys: seq<string>, i: nat)
    requires i < |keys| && Probe(i18n, keys[i]) != Returned(false)
    requires forall j :: 0 <= j < i ==> Probe(i18n, keys[j]) == Returned(false)
    ensures FirstProbed(i18n, keys) == Some(i)
  {
    if i > 0 {
      FirstProbedIs(i18n, keys[1..], i - 1);
    }
  }

  // ---------------------------------------------------------------- Lpath

  /** `game.i18n?.translations ?? {}`. */
  function Root(i18n: Option<Localization>): Value {
    if i18n.None? || i18n.value.translations.JNull? then JObj([]) else i18n.value.translations
  }

  /** The value of the first entry named `p`. */
  function Lookup(entries: seq<(string, Value)>, p: string): (r: Option<Value>)
    ensures r.Some? ==> exists i :: 0 <= i < |entries| && entries[i] == (p, r.value)
    ensures r.None? ==> forall i :: 0 <= i < |entries| ==> entries[i].0 != p
  {
    if entries == [] then None
    else if entries[0].0 == p then Some(entries[0].1)
    else Lookup(entries[1..], p)
  }

  /** The array index a property name denotes: canonical decimal digits ("0", "17", never "017"). */
  function CanonicalIndex(p: string): Option<nat> {
    if |p| >= 1 && DigitRun(p, 10) == |p| && (|p| == 1 || p[0] != '0') then Some(DigitsValue(p, 10))
    else None
  }

  /**
   * `Object.prototype.hasOwnProperty.call(v, p) ? v[p] : absent`: an object's entries, an
   * array's or a string's indices and its `length`; numbers and booleans have none.
   */
  function OwnProperty(v: Value, p: string): Option<Value> {
    match v
    case JObj(entries) => Lookup(entries, p)
    case JArr(items) =>
      if p == "length" then Some(JNum(|items|))
      else (match CanonicalIndex(p)
        case Some(i) => if i < |items| then Some(items[i]) else None
        case None => None)
    case JStr(s) =>
      if p == "length" then Some(JNum(|s|))
      else (match CanonicalIndex(p)
        case Some(i) => if i < |s| then Some(JStr([s[i]])) else None
        case None => None)
    case _ => None
  }

  /** Following the segments from `cur`: undefined as soon as the current value is falsy or lacks
      the next segment as an own property. */
  function Walk(cur: Value, parts: seq<string>): Option<Value>
    decreases |parts|
  {
    if parts == [] then Some(cur)
    else if !Truthy(cur) then None
    else match OwnProperty(cur, parts[0])
      case None => None
      case Some(next) => Walk(next, parts[1..])
  }

  /** `Lpath(path)`: the loop over the "."-separated segments of `path`, from the translation root. */
  method Lpath(i18n: Option<Localization>, path: string) returns (r: Option<Value>)
    ensures r == Walk(Root(i18n), Split(path, '.'))
  {
    var parts := Split(path, '.');
    var cur := Root(i18n);
    var i := 0;
    while i < |parts|
      invariant 0 <= i <= |parts|
      invariant Walk(Root(i18n), parts) == Walk(cur, parts[i..])
    {
      assert parts[i..][1..] == parts[i + 1..];
      var next := OwnProperty(cur, parts[i]);
      if Truthy(cur) && next.Some? {
        cur := next.value;
      } else {
        return None;
      }
      i := i + 1;
    }
    return Some(cur);
  }

  /** Walking a concatenation of paths walks the first, then the second from where it ended. */
  lemma {:induction false} WalkAppend(cur: Value, xs: seq<string>, ys: seq<string>)
    ensures Walk(cur, xs + ys) == match Walk(cur, xs) case None => None case Some(v) => Walk(v, ys)
    decreases |xs|
  {
    if xs == [] {
      assert xs + ys == ys;
    } else {
      assert (xs + ys)[1..] == xs[1..] + ys;
      if Truthy(cur) && OwnProperty(cur, xs[0]).Some? {
        WalkAppend(OwnProperty(cur, xs[0]).value, xs[1..], ys);
      }
    }
  }

  /** Compositionality: `Lpath(a + "." + b)` is the lookup of `b` inside `Lpath(a)`. */
  lemma LpathCompose(root: Value, a: string, b: string)
    ensures Walk(root, Split(a + "." + b, '.')) ==
      match Walk(root, Split(a, '.')) case None => None case Some(v) => Walk(v, Split(b, '.'))
  {
    SplitAppend(a, b, '.');
    assert a + "." + b == a + ['.'] + b;
    WalkAppend(root, Split(a, '.'), Split(b, '.'));
  }

  /** Once a segment is missing, or the value reached is falsy, the whole lookup is undefined. */
  lemma WalkStopsAtMissing(cur: Value, xs: seq<string>, p: string, ys: seq<string>, v: Value)
    requires Walk(cur, xs) == Some(v)
    requires !Truthy(v) || OwnProperty(v, p).None?
    ensures Walk(cur, xs + [p] + ys) == None
  {
    assert xs + [p] + ys == xs + ([p] + ys);
    WalkAppend(cur, xs, [p] + ys);
    assert ([p] + ys)[0] == p;
  }

  /** Arrays answer their canonical indices. */
  lemma ArrayIndexProperty(items: seq<Value>, i: nat)
    requires i < |items|
    ensures OwnProperty(JArr(items), NatToString(i)) == Some(items[i])
  {
    CanonicalIndexOfNat(i);
  }

  /** The decimal rendering of a number is the canonical index of that number, never "length". */
  lemma CanonicalIndexOfNat(i: nat)
    ensures CanonicalIndex(NatToString(i)) == Some(i) && NatToString(i) != "length"
  {
    var p := NatToString(i);
    DigitsOfNat(i);
    DigitRunAll(p, 10);
    assert p != "length" by {
      assert IsDigit(p[0]);
    }
  }

  /** An entry that is the first with its name is what a lookup of that name finds. */
  lemma {:induction false} LookupFirst(entries: seq<(string, Value)>, i: nat)
    requires i < |entries|
    requires forall j :: 0 <= j < i ==> entries[j].0 != entries[i].0
    ensures Lookup(entries, entries[i].0) == Some(entries[i].1)
  {
    if i > 0 {
      assert entries[1..][i - 1] == entries[i];
      LookupFirst(entries[1..], i - 1);
    }
  }

  // ---------------------------------------------------------------- Ltrait

  /** A trait's display data: its name, its truthy verbs and those verbs joined with ", ". */
  datatype Trait = Trait(name: string, verbs: seq<Value>, description: string)

  const TRAITS_PREFIX: string := "DAGGERHEART.CONFIG.Traits."

  /** `Object.values(v)`: an object's entry values, an array's items, a string's characters,
      in property order; nothing for a number, a boolean or null. */
  function ObjectValues(v: Value): (r: seq<Value>)
    ensures v.JObj? ==> |r| == |v.entries|
    ensures v.JArr? || v.JStr? ==> OwnProperty(v, "length") == Some(JNum(|r|))
    ensures !(v.JObj? || v.JArr? || v.JStr?) ==> r == []
  {
    match v
    case JObj(entries) => seq(|entries|, i requires 0 <= i < |entries| => entries[i].1)
    case JArr(items) => items
    case JStr(s) => seq(|s|, i requires 0 <= i < |s| => JStr([s[i]]))
    case _ => []
  }

  /** Every value an object's own property gives is one of its values. */
  lemma {:induction false} LookupInValues(entries: seq<(string, Value)>, p: string)
    requires Lookup(entries, p).Some?
    ensures Lookup(entries, p).value in ObjectValues(JObj(entries))
  {
    var vs := ObjectValues(JObj(entries));
    if entries[0].0 == p {
      assert vs[0] == entries[0].1;
    } else {
      LookupInValues(entries[1..], p);
      var x := Lookup(entries[1..], p).value;
      var k :| 0 <= k < |entries| - 1 && ObjectValues(JObj(entries[1..]))[k] == x;
      assert vs[k + 1] == entries[k + 1].1 == x;
    }
  }

  /** Each value of an object comes from its entry: the first entry with that name is what an
      own-property read of the name gives. */
  lemma ObjectValuesOfEntries(entries: seq<(string, Value)>, i: nat)
    requires i < |entries|
    requires forall j :: 0 <= j < i ==> entries[j].0 != entries[i].0
    ensures OwnProperty(JObj(entries), entries[i].0) == Some(ObjectValues(JObj(entries))[i])
  {
    LookupFirst(entries, i);
  }

  /** Each value of an array or a string is what an own-property read of its index gives. */
  lemma ObjectValuesOfIndices(v: Value, i: nat)
    requires (v.JArr? || v.JStr?) && i < |ObjectValues(v)|
    ensures OwnProperty(v, NatToString(i)) == Some(ObjectValues(v)[i])
  {
    CanonicalIndexOfNat(i);
  }

  /** `Lpath(base + ".verb") ?? {}`. */
  function VerbTree(i18n: Option<Localization>, key: string): Value {
    match Walk(Root(i18n), Split(TRAITS_PREFIX + key + ".verb", '.'))
    case None => JObj([])
    case Some(v) => if v.JNull? then JObj([]) else v
  }

  /**
   * `Ltrait(key)`: the localized name (falling back to the key itself), the truthy values
   * of the verb subtree in their order, and those verbs joined with ", ".
   */
  function Ltrait(i18n: Option<Localization>, key: string): (t: Trait)
    ensures t.name == L(i18n, TRAITS_PREFIX + key + ".name", Some(key), None)
    ensures !Known(i18n, TRAITS_PREFIX + key + ".name") ==> t.name == key
    ensures t.verbs == FilterTruthy(ObjectValues(VerbTree(i18n, key)))
    ensures forall i :: 0 <= i < |t.verbs| ==> Truthy(t.verbs[i]) && t.verbs[i] in ObjectValues(VerbTree(i18n, key))
    ensures t.description == JoinWith(JoinElements(t.verbs), ", ")
  {
    var base := TRAITS_PREFIX + key;
    var name := L(i18n, base + ".name", Some(key), None);
    var verbs := FilterTruthy(ObjectValues(VerbTree(i18n, key)));
    Trait(name, verbs, JoinWith(JoinElements(verbs), ", "))
  }

  /** No truthy value of the verb subtree is missing from the verbs. */
  lemma LtraitKeepsTruthy(i18n: Option<Localization>, key: string, v: Value)
    requires v in ObjectValues(VerbTree(i18n, key)) && Truthy(v)
    ensures v in Ltrait(i18n, key).verbs
  {
    FilterTruthyKeeps(ObjectValues(VerbTree(i18n, key)), v);
  }

  /** When the verb subtree is an object of non-empty strings, every one of them is a verb, in order,
      and the description reads them joined with ", ". */
  lemma {:induction false} LtraitStringVerbs(i18n: Option<Localization>, key: string, names: seq<string>, words: seq<string>)
    requires |names| == |words| && forall i :: 0 <= i < |words| ==> words[i] != ""
    requires VerbTree(i18n, key) == JObj(seq(|names|, i requires 0 <= i < |names| => (names[i], JStr(words[i]))))
    ensures Ltrait(i18n, key).description == JoinWith(words, ", ")
  {
    var vs := ObjectValues(VerbTree(i18n, key));
    assert vs == seq(|words|, i requires 0 <= i < |words| => JStr(words[i]));
    AllStringsKept(words);
    assert JoinElements(vs) == words;
  }

  lemma {:induction false} AllStringsKept(words: seq<string>)
    requires forall i :: 0 <= i < |words| ==> words[i] != ""
    ensures var vs := seq(|words|, i requires 0 <= i < |words| => JStr(words[i]));
      FilterTruthy(vs) == vs
  {
    var vs := seq(|words|, i requires 0 <= i < |words| => JStr(words[i]));
    if words != [] {
      AllStringsKept(words[1..]);
      assert vs[1..] == seq(|words[1..]|, i requires 0 <= i < |words[1..]| => JStr(words[1..][i]));
    }
  }
}
