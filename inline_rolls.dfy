/**
 * Inline dice markup (module/helpers/inline-rolls.mjs): the die icon chosen for a formula,
 * the formula of an `a.inline-roll` link, and the rewriting of the first `[[/dr …]]` in a
 * text node into a duality button, with the pass over a description's nodes.
 *
 * The two regular expressions are written out as functions over the string:
 * `/d(4|6|8|10|12|20)\b/i` and `/\[\[\/dr\s+([^\]]+)\]\]/i` (non-global, so `exec` and
 * `match` report the leftmost match).
 */
module InlineRolls {
  import opened Wrappers
  import opened Text

  const ICON_D4: string := "fa-solid fa-dice-d4"
  const ICON_D6: string := "fa-solid fa-dice-d6"
  const ICON_D8: string := "fa-solid fa-dice-d8"
  const ICON_D10: string := "fa-solid fa-dice-d10"
  const ICON_D12: string := "fa-solid fa-dice-d12"
  const ICON_D20: string := "fa-solid fa-dice-d20"

  /** The alternatives of the die pattern, in the order the regular expression tries them. */
  const DIE_FACES: seq<string> := ["4", "6", "8", "10", "12", "20"]

  // ---------------------------------------------------------------- pickDieIcon

  /** A character of `\w`. */
  predicate IsWordChar(c: char) {
    ('a' <= c <= 'z') || ('A' <= c <= 'Z') || ('0' <= c <= '9') || c == '_'
  }

  /** `\b` at position k: a word character on exactly one side. */
  predicate WordBoundary(s: string, k: nat)
    requires k <= |s|
  {
    (k > 0 && IsWordChar(s[k - 1])) != (k < |s| && IsWordChar(s[k]))
  }

  /** The alternative `f` followed by `\b`, at position k. */
  predicate FaceMatch(s: string, k: nat, f: string) {
    k + |f| <= |s| && s[k..k + |f|] == f && WordBoundary(s, k + |f|)
  }

  /** `(4|6|8|10|12|20)\b` at position k: the first alternative, in order, that matches there;
      none exactly when no alternative does. */
  function FacesAt(s: string, k: nat, alts: seq<string>): (r: Option<string>)
    ensures r.Some? ==> r.value in alts && FaceMatch(s, k, r.value)
    ensures r.None? <==> forall a :: a in alts ==> !FaceMatch(s, k, a)
  {
    if alts == [] then None
    else if FaceMatch(s, k, alts[0]) then Some(alts[0])
    else FacesAt(s, k, alts[1..])
  }

  /** The text decides how long a matching alternative is: two digits exactly when a word
      character follows the first, since a one-digit face needs `\b` right after it. */
  lemma FaceLength(s: string, k: nat, f: string)
    requires f in DIE_FACES && FaceMatch(s, k, f)
    ensures |f| == if k + 1 < |s| && IsWordChar(s[k + 1]) then 2 else 1
  {
    assert s[k..k + |f|][0] == s[k] == f[0];
    if |f| == 2 {
      assert s[k..k + |f|][1] == s[k + 1] == f[1];
    }
  }

  /** At most one die alternative matches at a position. */
  lemma FacesUnique(s: string, k: nat, f: string, g: string)
    requires f in DIE_FACES && g in DIE_FACES && FaceMatch(s, k, f) && FaceMatch(s, k, g)
    ensures f == g
  {
    FaceLength(s, k, f);
    FaceLength(s, k, g);
    assert f == s[k..k + |f|] == g;
  }

  /** Either case of "d". */
  predicate IsDieLetter(c: char) {
    c == 'd' || c == 'D'
  }

  /** The die pattern with its "d" at position i: the faces it captures. A match has the letter,
      one of the alternatives and a word boundary after it. */
  function DieAt(s: string, i: nat): (r: Option<string>)
    ensures r.Some? ==> i < |s| && IsDieLetter(s[i]) && r.value in DIE_FACES && FaceMatch(s, i + 1, r.value)
  {
    if i < |s| && IsDieLetter(s[i]) then FacesAt(s, i + 1, DIE_FACES) else None
  }

  /** Whenever the letter, an alternative and the word boundary are there, that alternative is
      what the pattern captures. */
  lemma DieAtComplete(s: string, i: nat, f: string)
    requires i < |s| && IsDieLetter(s[i]) && f in DIE_FACES && FaceMatch(s, i + 1, f)
    ensures DieAt(s, i) == Some(f)
  {
    var r := FacesAt(s, i + 1, DIE_FACES);
    FacesUnique(s, i + 1, r.value, f);
  }

  /** A scan that returns from inside: the first position from `from` up to `limit` where `f`
      finds something, with what it found. */
  function FirstFrom<R>(from: nat, limit: nat, f: nat -> Option<R>): (r: Option<(nat, R)>)
    requires from <= limit
    ensures r.Some? ==> from <= r.value.0 < limit && f(r.value.0) == Some(r.value.1)
    ensures r.Some? ==> forall j :: from <= j < r.value.0 ==> f(j).None?
    ensures r.None? ==> forall j :: from <= j < limit ==> f(j).None?
    decreases limit - from
  {
    if from == limit then None
    else match f(from)
      case Some(x) => Some((from, x))
      case None => FirstFrom(from + 1, limit, f)
  }

  /** The scan stops at the first position where `f` finds something. */
  lemma {:induction false} FirstFromIs<R>(from: nat, limit: nat, f: nat -> Option<R>, i: nat)
    requires from <= i < limit && f(i).Some?
    requires forall j :: from <= j < i ==> f(j).None?
    ensures FirstFrom(from, limit, f) == Some((i, f(i).value))
    decreases i - from
  {
    if from < i {
      FirstFromIs(from + 1, limit, f, i);
    }
  }

  /** `exec` from position `from`: the leftmost position where the die pattern matches, and its faces. */
  function FirstDie(s: string, from: nat): (r: Option<(nat, string)>)
    requires from <= |s|
    ensures r.Some? ==> from <= r.value.0 < |s| && DieAt(s, r.value.0) == Some(r.value.1)
    ensures r.Some? ==> forall j :: from <= j < r.value.0 ==> DieAt(s, j).None?
    ensures r.None? ==> forall j :: from <= j <= |s| ==> DieAt(s, j).None?
  {
    var f := j => DieAt(s, j);
    assert forall j :: f(j) == DieAt(s, j);
    FirstFrom(from, |s|, f)
  }

  /** The icon class for a captured number of faces. */
  function IconFor(faces: string): string {
    if faces == "4" then ICON_D4
    else if faces == "8" then ICON_D8
    else if faces == "10" then ICON_D10
    else if faces == "12" then ICON_D12
    else if faces == "20" then ICON_D20
    else ICON_D6
  }

  /** One of the six die icons. */
  predicate IsDieIcon(icon: string) {
    icon == ICON_D4 || icon == ICON_D6 || icon == ICON_D8 || icon == ICON_D10 || icon == ICON_D12 || icon == ICON_D20
  }

  /** `pickDieIcon(formula)`: the icon of the first die in the formula; the d6 icon when there is none. */
  function PickDieIcon(formula: string): (icon: string)
    ensures IsDieIcon(icon)
  {
    match FirstDie(formula, 0)
    case Some((_, faces)) => IconFor(faces)
    case None => ICON_D6
  }

  /** The leftmost die decides the icon. */
  lemma {:induction false} PickDieIconFirstMatch(formula: string, i: nat, faces: string)
    requires i <= |formula| && DieAt(formula, i) == Some(faces)
    requires forall j :: 0 <= j < i ==> DieAt(formula, j).None?
    ensures PickDieIcon(formula) == IconFor(faces)
  {
    FirstDieFrom(formula, 0, i);
  }

  lemma FirstDieFrom(s: string, from: nat, i: nat)
    requires from <= i <= |s| && DieAt(s, i).Some?
    requires forall j :: from <= j < i ==> DieAt(s, j).None?
    ensures FirstDie(s, from) == Some((i, DieAt(s, i).value))
  {
    FirstFromIs(from, |s|, j => DieAt(s, j), i);
  }


  /** With no die in the formula the icon is the d6 one. */
  lemma PickDieIconDefault(formula: string)
    requires forall j :: 0 <= j <= |formula| ==> DieAt(formula, j).None?
    ensures PickDieIcon(formula) == ICON_D6
  {
  }

  /** "d100" holds no die of the list: its "10" is followed by a word character. */
  lemma PickDieIconHundred()
    ensures PickDieIcon("d100") == ICON_D6
  {
    var s := "d100";
    NoFacesInHundred();
    assert DieAt(s, 1).None? && DieAt(s, 2).None? && DieAt(s, 3).None? && DieAt(s, 4).None?;
    PickDieIconDefault(s);
  }

  lemma NoFacesInHundred()
    ensures DieAt("d100", 0).None?
  {
    var s := "d100";
    assert s[1..2] == "1" && s[1..3] == "10" && !WordBoundary(s, 3);
    assert FacesAt(s, 1, DIE_FACES[5..]) == None;
    assert FacesAt(s, 1, DIE_FACES[4..]) == None;
    assert FacesAt(s, 1, DIE_FACES[3..]) == None;
    assert FacesAt(s, 1, DIE_FACES[2..]) == None;
    assert FacesAt(s, 1, DIE_FACES[1..]) == None;
  }

  /** The match is case-insensitive. */
  lemma PickDieIconUpperCase()
    ensures PickDieIcon("D20") == ICON_D20
  {
    var t := "D20";
    assert t[1..2] == "2" && t[1..3] == "20" && WordBoundary(t, 3);
    assert t[1..2] != "4" && t[1..2] != "6" && t[1..2] != "8";
    assert t[1..3] != "10" && t[1..3] != "12";
    assert DieAt(t, 0) == Some("20");
    PickDieIconFirstMatch(t, 0, "20");
  }

  // ---------------------------------------------------------------- inline-roll formula

  /** `a.dataset.formula?.trim() || a.textContent.trim()`. */
  function RollFormula(dataFormula: Option<string>, content: string): (f: string)
    ensures dataFormula.Some? && Trim(dataFormula.value) != "" ==> f == Trim(dataFormula.value)
    ensures !(dataFormula.Some? && Trim(dataFormula.value) != "") ==> f == Trim(content)
    ensures f == [] || (!IsSpace(f[0]) && !IsSpace(f[|f| - 1]))
  {
    var fromData := if dataFormula.Some? then Trim(dataFormula.value) else "";
    if fromData != "" then fromData else Trim(content)
  }

  // ---------------------------------------------------------------- [[/dr …]]

  /** `\[\[\/dr` at position p, the letters in either case. */
  predicate DrOpenerAt(s: string, p: nat) {
    p + 5 <= |s| && s[p] == '[' && s[p + 1] == '[' && s[p + 2] == '/' &&
    (s[p + 3] == 'd' || s[p + 3] == 'D') && (s[p + 4] == 'r' || s[p + 4] == 'R')
  }

  /** The number of white-space characters starting at k. */
  function SpaceRun(s: string, k: nat): (n: nat)
    requires k <= |s|
    ensures k + n <= |s|
    ensures forall i :: k <= i < k + n ==> IsSpace(s[i])
    ensures k + n < |s| ==> !IsSpace(s[k + n])
    decreases |s| - k
  {
    if k < |s| && IsSpace(s[k]) then 1 + SpaceRun(s, k + 1) else 0
  }

  /** The first ']' at or after k. */
  function CloseFrom(s: string, k: nat): (r: Option<nat>)
    requires k <= |s|
    ensures r.Some? ==> k <= r.value < |s| && s[r.value] == ']'
    ensures forall i :: k <= i < |s| && (r.None? || i < r.value) ==> s[i] != ']'
    decreases |s| - k
  {
    if k == |s| then None
    else if s[k] == ']' then Some(k)
    else CloseFrom(s, k + 1)
  }

  /** Where a match lies: `m.index`, `m.index + m[0].length`, and the bounds of `m[1]`. */
  datatype DrMatch = DrMatch(index: nat, end: nat, groupStart: nat, groupEnd: nat)

  /** The regular expression's language at position p: the opener, one or more white-space
      characters, one or more characters other than ']', then "]]". */
  ghost predicate DrShapeAt(s: string, p: nat, g: nat, e: nat) {
    DrOpenerAt(s, p) && p + 5 < g < e && e + 1 < |s| &&
    (forall i :: p + 5 <= i < g ==> IsSpace(s[i])) &&
    (forall i :: g <= i < e ==> s[i] != ']') &&
    s[e] == ']' && s[e + 1] == ']'
  }

  /**
   * The match at position p, as the backtracking engine finds it: `\s+` takes the whole
   * white-space run, `[^\]]+` runs to the first ']', which must be followed by another ']'.
   * When the white space runs right up to the ']', `\s+` gives back one character to the group.
   */
  function DrMatchAt(s: string, p: nat): Option<DrMatch>
    requires p <= |s|
  {
    if !DrOpenerAt(s, p) then None
    else
      var ws := SpaceRun(s, p + 5);
      match CloseFrom(s, p + 5)
      case None => None
      case Some(e) =>
        var g := if e > p + 5 + ws then p + 5 + ws else e - 1;
        if ws >= 1 && e + 1 < |s| && s[e + 1] == ']' && p + 5 < g then Some(DrMatch(p, e + 2, g, e)) else None
  }

  /** What the greedy match finds has the shape of the regular expression, with the group inside it. */
  lemma DrMatchAtSound(s: string, p: nat)
    requires p <= |s| && DrMatchAt(s, p).Some?
    ensures var m := DrMatchAt(s, p).value;
      m.index == p && m.end == m.groupEnd + 2 && DrShapeAt(s, p, m.groupStart, m.groupEnd)
  {
  }

  /** The greedy match misses nothing: wherever the pattern can match, `DrMatchAt` finds a match. */
  lemma DrMatchAtComplete(s: string, p: nat, g: nat, e: nat)
    requires p <= |s| && DrShapeAt(s, p, g, e)
    ensures DrMatchAt(s, p).Some? && DrMatchAt(s, p).value.groupEnd == e
  {
    var ws := SpaceRun(s, p + 5);
    var c := CloseFrom(s, p + 5);
    assert forall i :: p + 5 <= i < e ==> s[i] != ']';
    assert s[e] == ']';
    assert c == Some(e);
    assert !IsSpace(s[e]);
    assert p + 5 + ws <= e;
    assert ws >= g - (p + 5);
  }

  /** No match starts at a position in [from, to). */
  predicate NoDrBetween(s: string, from: nat, to: nat)
    requires to <= |s| + 1
  {
    forall q :: from <= q < to ==> DrMatchAt(s, q).None?
  }

  /** `s.match(...)` from position `from`: the leftmost match. */
  function FirstDrMatch(s: string, from: nat): (r: Option<DrMatch>)
    requires from <= |s|
    ensures r.Some? ==> (from <= r.value.index <= |s| && DrMatchAt(s, r.value.index) == r)
    ensures r.Some? ==> NoDrBetween(s, from, r.value.index)
    ensures r.None? ==> NoDrBetween(s, from, |s| + 1)
    decreases |s| - from
  {
    match DrMatchAt(s, from)
    case Some(m) => Some(m)
    case None => if from == |s| then None else FirstDrMatch(s, from + 1)
  }

  /** A text node cut at its first `[[/dr …]]`: the text before it, the matched markup, the trimmed
      parameters and the text after it. */
  datatype DrSplit = DrSplit(before: string, matched: string, params: string, after: string)

  /**
   * The split of `toHudInlineButtons`: `before = s.slice(0, m.index)`, `params = m[1].trim()`,
   * `after = s.slice(m.index + m[0].length)`. The pieces put back together give the text;
   * the parameters are the trimmed text between "[[/dr" and "]]"; and no earlier position
   * starts a match.
   */
  function SplitDr(s: string): (r: Option<DrSplit>)
    ensures r.None? ==> NoDrBetween(s, 0, |s| + 1)
    ensures r.Some? ==> r.value.before + r.value.matched + r.value.after == s
    ensures r.Some? ==> (DrMatchAt(s, |r.value.before|).Some? && NoDrBetween(s, 0, |r.value.before|))
    ensures r.Some? ==> WellFormedSplit(r.value)
  {
    match FirstDrMatch(s, 0)
    case None => None
    case Some(m) =>
      DrMatchAtSound(s, m.index);
      Some(SplitAt(s, m))
  }

  /** The matched markup opens with "[[/" and closes with "]]"; the parameters are the trimmed
      text between "[[/dr" and "]]", and hold no ']'. */
  predicate WellFormedSplit(d: DrSplit) {
    Delimited(d.matched) && d.params == Trim(Inner(d.matched)) && ']' !in d.params
  }

  /** Markup that opens with "[[/" and closes with "]]", with room for "dr" and a parameter. */
  predicate Delimited(matched: string) {
    |matched| >= 8 && StartsWith(matched, "[[/") && matched[|matched| - 2..] == "]]"
  }

  /** The text between "[[/dr" and "]]". */
  function Inner(matched: string): string
    requires |matched| >= 7
  {
    matched[5..|matched| - 2]
  }

  /** The split around a match of the regular expression. */
  function SplitAt(s: string, m: DrMatch): (d: DrSplit)
    requires m.end == m.groupEnd + 2 && DrShapeAt(s, m.index, m.groupStart, m.groupEnd)
    ensures |d.before| == m.index && d.before + d.matched + d.after == s
    ensures WellFormedSplit(d)
  {
    SplitAtWellFormed(s, m);
    DrSplit(s[..m.index], s[m.index..m.end], Trim(s[m.groupStart..m.groupEnd]), s[m.end..])
  }

  lemma SplitAtWellFormed(s: string, m: DrMatch)
    requires m.end == m.groupEnd + 2 && DrShapeAt(s, m.index, m.groupStart, m.groupEnd)
    ensures m.index < m.end <= |s|
    ensures var d := DrSplit(s[..m.index], s[m.index..m.end], Trim(s[m.groupStart..m.groupEnd]), s[m.end..]);
      d.before + d.matched + d.after == s && WellFormedSplit(d)
  {
    var p, g, e := m.index, m.groupStart, m.groupEnd;
    DrPieces(s, m);
    SpacesBeforeGroup(s, m);
    DrParamsNoClose(s, m);
    WellFormedFromParts(s, p, g, e);
  }

  lemma WellFormedFromParts(s: string, p: nat, g: nat, e: nat)
    requires p + 5 <= g <= e && e + 2 <= |s|
    requires Delimited(s[p..e + 2])
    requires AllSpace(s[p + 5..g]) && ']' !in Trim(s[g..e])
    ensures WellFormedSplit(DrSplit(s[..p], s[p..e + 2], Trim(s[g..e]), s[e + 2..]))
  {
    DrParams(s, p, g, e);
  }

  /** The text cut around a match, and the delimiters of the matched markup. */
  lemma DrPieces(s: string, m: DrMatch)
    requires m.end == m.groupEnd + 2 && DrShapeAt(s, m.index, m.groupStart, m.groupEnd)
    ensures m.index < m.end <= |s| && s[..m.index] + s[m.index..m.end] + s[m.end..] == s
    ensures Delimited(s[m.index..m.end])
  {
    var p, e := m.index, m.groupEnd;
    var matched := s[p..e + 2];
    assert s[..p] + matched + s[e + 2..] == s;
    assert matched[..3] == "[[/" by {
      assert matched[0] == s[p] && matched[1] == s[p + 1] && matched[2] == s[p + 2];
    }
    assert matched[|matched| - 2..] == "]]" by {
      assert matched[|matched| - 2] == s[e] && matched[|matched| - 1] == s[e + 1];
    }
  }

  /** The trimmed group is the trimmed text between "[[/dr" and "]]": only white space lies
      between the opener at p and the group [g, e), which the closing "]]" follows. */
  lemma DrParams(s: string, p: nat, g: nat, e: nat)
    requires p + 5 <= g <= e && e + 2 <= |s|
    requires AllSpace(s[p + 5..g])
    ensures Trim(s[g..e]) == Trim(Inner(s[p..e + 2]))
  {
    DrInner(s, p, g, e);
    TrimPadded(Inner(s[p..e + 2]), s[p + 5..g], s[g..e]);
  }

  /** Between "[[/dr" and "]]" lie the white space and then the group. */
  lemma DrInner(s: string, p: nat, g: nat, e: nat)
    requires p + 5 <= g <= e && e + 2 <= |s|
    ensures Inner(s[p..e + 2]) == s[p + 5..g] + s[g..e]
  {
    SliceOfSlice(s, p, e + 2, 5, e - p);
    SliceSplit(s, p + 5, g, e);
  }

  lemma TrimPadded(x: string, spaces: string, y: string)
    requires x == spaces + y && AllSpace(spaces)
    ensures Trim(y) == Trim(x)
  {
    TrimAfterSpaces(spaces, y);
  }

  lemma SliceOfSlice(s: string, i: nat, j: nat, k: nat, l: nat)
    requires i <= j <= |s| && k <= l <= j - i
    ensures s[i..j][k..l] == s[i + k..i + l]
  {
    assert forall t :: 0 <= t < l - k ==> s[i..j][k..l][t] == s[i + k..i + l][t];
  }

  lemma SliceSplit(s: string, i: nat, j: nat, k: nat)
    requires i <= j <= k <= |s|
    ensures s[i..k] == s[i..j] + s[j..k]
  {
    assert s[i..k] == s[i..j] + s[j..k];
  }

  /** Every character is white space. */
  predicate AllSpace(x: string) {
    forall i :: 0 <= i < |x| ==> IsSpace(x[i])
  }

  lemma SpacesBeforeGroup(s: string, m: DrMatch)
    requires DrShapeAt(s, m.index, m.groupStart, m.groupEnd)
    ensures AllSpace(s[m.index + 5..m.groupStart])
  {
    var spaces := s[m.index + 5..m.groupStart];
    assert forall i :: 0 <= i < |spaces| ==> spaces[i] == s[m.index + 5 + i];
  }

  /** The group holds no ']', and neither does its trimmed text. */
  lemma DrParamsNoClose(s: string, m: DrMatch)
    requires m.end == m.groupEnd + 2 && DrShapeAt(s, m.index, m.groupStart, m.groupEnd)
    ensures ']' !in Trim(s[m.groupStart..m.groupEnd])
  {
    var group := s[m.groupStart..m.groupEnd];
    assert forall i :: 0 <= i < |group| ==> group[i] == s[m.groupStart + i];
    NoCloseInTrim(group);
  }

  /** Leading white space does not change the trimmed text. */
  lemma TrimAfterSpaces(spaces: string, x: string)
    requires AllSpace(spaces)
    ensures Trim(spaces + x) == Trim(x)
  {
    assert TrimStart(spaces + x) == TrimStart(x) by {
      TrimStartSkips(spaces, x);
    }
  }

  lemma {:induction false} TrimStartSkips(spaces: string, x: string)
    requires AllSpace(spaces)
    ensures TrimStart(spaces + x) == TrimStart(x)
  {
    if spaces == [] {
      assert spaces + x == x;
    } else {
      assert (spaces + x)[1..] == spaces[1..] + x;
      TrimStartSkips(spaces[1..], x);
    }
  }

  lemma NoCloseInTrim(x: string)
    requires ']' !in x
    ensures ']' !in Trim(x)
  {
    var t := TrimStart(x);
    NoCloseInSlice(x, |x| - |t|, |x|);
    NoCloseInSlice(t, 0, |TrimEnd(t)|);
  }

  lemma NoCloseInSlice(x: string, a: nat, b: nat)
    requires ']' !in x && a <= b <= |x|
    ensures ']' !in x[a..b]
  {
    assert forall i :: 0 <= i < b - a ==> x[a..b][i] == x[a + i];
  }

  /** Only the first occurrence is converted: what follows it is kept as text, even when it holds
      another `[[/dr …]]`. */
  lemma SecondOccurrenceStaysText()
    ensures var s := "[[/dr a]] [[/dr b]]";
      SplitDr(s) == Some(DrSplit("", "[[/dr a]]", "a", " [[/dr b]]"))
  {
    var s := "[[/dr a]] [[/dr b]]";
    var m := DrMatch(0, 9, 6, 7);
    FirstMatchAtStart();
    assert FirstDrMatch(s, 0) == Some(m);
    DrMatchAtSound(s, 0);
    SplitAtFirstMatch();
  }

  lemma SplitAtFirstMatch()
    requires DrShapeAt("[[/dr a]] [[/dr b]]", 0, 6, 7)
    ensures SplitAt("[[/dr a]] [[/dr b]]", DrMatch(0, 9, 6, 7)) == DrSplit("", "[[/dr a]]", "a", " [[/dr b]]")
  {
    FirstMatchPieces();
    FirstMatchParams();
  }

  lemma FirstMatchPieces()
    ensures "[[/dr a]] [[/dr b]]"[0..9] == "[[/dr a]]"
    ensures "[[/dr a]] [[/dr b]]"[9..] == " [[/dr b]]"
  {
  }

  lemma FirstMatchParams()
    ensures Trim("[[/dr a]] [[/dr b]]"[6..7]) == "a"
  {
    var s := "[[/dr a]] [[/dr b]]";
    assert s[6..7] == "a";
    assert TrimStart("a") == "a" && TrimEnd("a") == "a";
  }

  lemma FirstMatchAtStart()
    ensures DrMatchAt("[[/dr a]] [[/dr b]]", 0) == Some(DrMatch(0, 9, 6, 7))
  {
    var s := "[[/dr a]] [[/dr b]]";
    assert DrOpenerAt(s, 0);
    assert SpaceRun(s, 6) == 0;
    assert SpaceRun(s, 5) == 1;
    assert CloseFrom(s, 7) == Some(7);
    assert CloseFrom(s, 5) == Some(7);
  }

  // ---------------------------------------------------------------- the pass over a description

  /**
   * The nodes of an enriched description in document order. A link's text is part of the link;
   * a duality wrapper stands for the `<span>` holding the text before, the button with its
   * parameters, and the text after (an empty piece gets no text node).
   */
  datatype Node =
    | Text(text: string)
    | InlineRollLink(dataFormula: Option<string>, content: string)
    | RollButton(formula: string, icon: string)
    | DualityWrap(before: string, params: string, after: string)
    | Element

  /** One `a.inline-roll` replaced by its roll button; every other node as it was. */
  function RollNode(n: Node): (r: Node)
    ensures n.InlineRollLink? ==> r.RollButton? && r.formula == RollFormula(n.dataFormula, n.content)
    ensures n.InlineRollLink? ==> r.icon == PickDieIcon(r.formula)
    ensures !n.InlineRollLink? ==> r == n
  {
    match n
    case InlineRollLink(data, content) =>
      var f := RollFormula(data, content);
      RollButton(f, PickDieIcon(f))
    case _ => n
  }

  /** One text node with a `[[/dr …]]` replaced by its wrapper, built from the first match's
      split; a text node with no match, and every other node, as it was. */
  function DualityNode(n: Node): (r: Node)
    ensures !n.Text? ==> r == n
    ensures n.Text? && SplitDr(n.text).Some? ==>
      r == DualityWrap(SplitDr(n.text).value.before, SplitDr(n.text).value.params, SplitDr(n.text).value.after)
    ensures n.Text? && SplitDr(n.text).None? ==> r == n && NoDrBetween(n.text, 0, |n.text| + 1)
  {
    match n
    case Text(s) =>
      (match SplitDr(s)
       case Some(d) => DualityWrap(d.before, d.params, d.after)
       case None => n)
    case _ => n
  }

  /** Rewriting a node twice is rewriting it once: a wrapper is not a text node. */
  lemma DualityNodeIdempotent(n: Node)
    ensures DualityNode(DualityNode(n)) == DualityNode(n)
  {
  }

  /** What `toHudInlineButtons` does to one node of the description. */
  function Converted(n: Node, enableDuality: bool): (r: Node)
    ensures !enableDuality && !n.DualityWrap? ==> !r.DualityWrap?
    ensures n.InlineRollLink? ==> r == RollNode(n) && r.RollButton?
    ensures enableDuality && n.Text? && SplitDr(n.text).Some? ==>
      r == DualityWrap(SplitDr(n.text).value.before, SplitDr(n.text).value.params, SplitDr(n.text).value.after)
    ensures n.Text? && (!enableDuality || SplitDr(n.text).None?) ==> r == n
    ensures n.Element? || n.RollButton? || n.DualityWrap? ==> r == n
  {
    if enableDuality then DualityNode(RollNode(n)) else RollNode(n)
  }

  /** The loop over `root.querySelectorAll("a.inline-roll")`: every link becomes a roll button. */
  method ConvertInlineRolls(a: array<Node>)
    modifies a
    ensures forall i :: 0 <= i < a.Length ==> a[i] == RollNode(old(a[i]))
  {
    ReplaceEach(a, RollNode);
  }

  /** A `forEach` over the nodes that replaces each one by what `f` makes of it. */
  method ReplaceEach(a: array<Node>, f: Node -> Node)
    modifies a
    ensures forall i :: 0 <= i < a.Length ==> a[i] == f(old(a[i]))
  {
    for i := 0 to a.Length
      invariant forall k :: 0 <= k < i ==> a[k] == f(old(a[k]))
      invariant forall k :: i <= k < a.Length ==> a[k] == old(a[k])
    {
      a[i] := f(a[i]);
    }
  }

  /** The tree walker's loop: the positions of all text nodes, in document order. */
  method CollectTextNodes(a: array<Node>) returns (nodes: seq<nat>)
    ensures forall k :: 0 <= k < |nodes| ==> nodes[k] < a.Length && a[nodes[k]].Text?
    ensures forall k, l :: 0 <= k < l < |nodes| ==> nodes[k] < nodes[l]
    ensures forall i :: 0 <= i < a.Length && a[i].Text? ==> i in nodes
  {
    nodes := [];
    var i := 0;
    while i < a.Length
      invariant 0 <= i <= a.Length
      invariant forall k :: 0 <= k < |nodes| ==> nodes[k] < i && a[nodes[k]].Text?
      invariant forall k, l :: 0 <= k < l < |nodes| ==> nodes[k] < nodes[l]
      invariant forall j :: 0 <= j < i && a[j].Text? ==> j in nodes
    {
      if a[i].Text? {
        nodes := nodes + [i];
      }
      i := i + 1;
    }
  }

  /** The loop over the collected text nodes: each one is rewritten once, from its text as collected. */
  method ConvertDuality(a: array<Node>, nodes: seq<nat>)
    requires forall k :: 0 <= k < |nodes| ==> nodes[k] < a.Length
    modifies a
    ensures forall i :: 0 <= i < a.Length ==> a[i] == if i in nodes then DualityNode(old(a[i])) else old(a[i])
  {
    for j := 0 to |nodes|
      invariant forall i :: 0 <= i < a.Length ==>
        a[i] == if i in nodes[..j] then DualityNode(old(a[i])) else old(a[i])
    {
      assert nodes[..j + 1] == nodes[..j] + [nodes[j]];
      a[nodes[j]] := DualityNode(a[nodes[j]]);
    }
    assert nodes[..|nodes|] == nodes;
  }

  /**
   * `toHudInlineButtons(html, { enableDuality })` on the description's nodes: links become
   * roll buttons; then, when enabled, the text nodes collected before any replacement get
   * their first `[[/dr …]]` rewritten. Each node ends as a function of itself alone, so no
   * inserted node is scanned again.
   */
  method ToHudInlineButtons(a: array<Node>, enableDuality: bool)
    modifies a
    ensures forall i :: 0 <= i < a.Length ==> a[i] == Converted(old(a[i]), enableDuality)
  {
    ConvertInlineRolls(a);
    if enableDuality {
      var nodes := CollectTextNodes(a);
      ConvertDuality(a, nodes);
    }
  }
}
