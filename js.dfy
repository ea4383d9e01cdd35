/**
 * JavaScript values as the helpers see them: the JSON-shaped data of a translation
 * file or of a Handlebars argument, their truthiness, and how `String(v)` and
 * `Array.prototype.join` turn them into text.
 */
module Js {
  import opened Text

  /** A JSON-shaped value. Numbers are integers here; `JNull` stands for `null` and `undefined`.
      Object entries are kept in their own-property order. */
  datatype Value =
    | JNull
    | JBool(b: bool)
    | JNum(n: int)
    | JStr(s: string)
    | JArr(items: seq<Value>)
    | JObj(entries: seq<(string, Value)>)

  /** `Boolean(v)`: null, false, 0 and "" are falsy, everything else (every array or object) is truthy. */
  predicate Truthy(v: Value) {
    match v
    case JNull => false
    case JBool(b) => b
    case JNum(n) => n != 0
    case JStr(s) => s != ""
    case _ => true
  }

  /** `String(v)`. Inside an array, null elements render as "" (that is what `join` does). */
  function ToJsString(v: Value): string {
    match v
    case JNull => "null"
    case JBool(b) => if b then "true" else "false"
    case JNum(n) => IntToString(n)
    case JStr(s) => s
    case JArr(items) =>
      JoinWith(seq(|items|, i requires 0 <= i < |items| =>
        if items[i].JNull? then "" else ToJsString(items[i])), ",")
    case JObj(_) => "[object Object]"
  }

  /** How `Array.prototype.join` renders one element: null and undefined become "". */
  function JoinElement(v: Value): string {
    if v.JNull? then "" else ToJsString(v)
  }

  /** The elements rendered as `join` renders them: one piece per element, a string as itself,
      null and undefined as the empty piece. */
  function JoinElements(vs: seq<Value>): (r: seq<string>)
    ensures |r| == |vs|
    ensures forall i :: 0 <= i < |vs| && vs[i].JStr? ==> r[i] == vs[i].s
    ensures forall i :: 0 <= i < |vs| && vs[i].JNull? ==> r[i] == ""
  {
    seq(|vs|, i requires 0 <= i < |vs| => JoinElement(vs[i]))
  }

  /** Rendering is element by element, so it distributes over concatenation. */
  lemma JoinElementsAppend(a: seq<Value>, b: seq<Value>)
    ensures JoinElements(a + b) == JoinElements(a) + JoinElements(b)
  {
    var r, ra, rb := JoinElements(a + b), JoinElements(a), JoinElements(b);
    forall i | 0 <= i < |a + b|
      ensures r[i] == (ra + rb)[i]
    {
      if i < |a| {
        assert (a + b)[i] == a[i];
        assert r[i] == JoinElement(a[i]) == ra[i];
      } else {
        assert (a + b)[i] == b[i - |a|];
        assert r[i] == JoinElement(b[i - |a|]) == rb[i - |a|];
      }
    }
  }

  /** `vs.filter(Boolean)`: the truthy elements, in order. */
  function FilterTruthy(vs: seq<Value>): (r: seq<Value>)
    ensures |r| <= |vs|
    ensures forall i :: 0 <= i < |r| ==> Truthy(r[i]) && r[i] in vs
  {
    if vs == [] then []
    else if Truthy(vs[0]) then [vs[0]] + FilterTruthy(vs[1..])
    else FilterTruthy(vs[1..])
  }

  /** Filtering a concatenation filters each part: the order of the survivors is kept. */
  lemma {:induction false} FilterTruthyAppend(a: seq<Value>, b: seq<Value>)
    ensures FilterTruthy(a + b) == FilterTruthy(a) + FilterTruthy(b)
  {
    if a == [] {
      assert a + b == b;
    } else {
      assert (a + b)[1..] == a[1..] + b;
      FilterTruthyAppend(a[1..], b);
    }
  }

  /** No truthy element is dropped. */
  lemma {:induction false} FilterTruthyKeeps(vs: seq<Value>, x: Value)
    requires x in vs && Truthy(x)
    ensures x in FilterTruthy(vs)
  {
    if vs[0] != x {
      FilterTruthyKeeps(vs[1..], x);
    }
  }
}
