/**
 * JavaScript string primitives the helpers rely on: white space as `trim` and the
 * regular-expression class `\s` see it, `String.prototype.trim`, `split` on one
 * character, `Array.prototype.join`, the decimal rendering of an integer and the
 * global `parseInt` with no radix argument.
 */
module Text {
  import opened Wrappers

  /** ECMAScript WhiteSpace and LineTerminator code points (the set of `trim` and of `\s`). */
  predicate IsSpace(c: char) {
    c == '\t' || c == '\n' || c == '\U{B}' || c == '\U{C}' || c == '\r' || c == ' ' ||
    c == '\U{A0}' || c == '\U{1680}' || ('\U{2000}' <= c <= '\U{200A}') ||
    c == '\U{2028}' || c == '\U{2029}' || c == '\U{202F}' || c == '\U{205F}' ||
    c == '\U{3000}' || c == '\U{FEFF}'
  }

  predicate StartsWith(s: string, prefix: string) {
    |prefix| <= |s| && s[..|prefix|] == prefix
  }

  // ---------------------------------------------------------------- trim

  /** Removes leading white space. */
  function TrimStart(s: string): (r: string)
    ensures |r| <= |s| && r == s[|s| - |r|..]
    ensures forall i :: 0 <= i < |s| - |r| ==> IsSpace(s[i])
    ensures r == [] || !IsSpace(r[0])
  {
    if s != [] && IsSpace(s[0]) then
      var r := TrimStart(s[1..]);
      assert s[1..][|s| - 1 - |r|..] == s[|s| - |r|..];
      assert forall i :: 1 <= i < |s| ==> s[i] == s[1..][i - 1];
      r
    else s
  }

  /** Removes trailing white space. */
  function TrimEnd(s: string): (r: string)
    ensures |r| <= |s| && r == s[..|r|]
    ensures forall i :: |r| <= i < |s| ==> IsSpace(s[i])
    ensures r == [] || !IsSpace(r[|r| - 1])
  {
    if s != [] && IsSpace(s[|s| - 1]) then
      var r := TrimEnd(s[..|s| - 1]);
      assert s[..|s| - 1][..|r|] == s[..|r|];
      assert forall i :: 0 <= i < |s| - 1 ==> s[i] == s[..|s| - 1][i];
      r
    else s
  }

  /** `String.prototype.trim`: the longest slice of `s` that neither starts nor ends with white space,
      everything cut off being white space. */
  function Trim(s: string): (r: string)
    ensures exists a, b :: CutsSpace(s, r, a, b)
    ensures r == [] || (!IsSpace(r[0]) && !IsSpace(r[|r| - 1]))
  {
    var t := TrimStart(s);
    var r := TrimEnd(t);
    TrimCuts(s, t, r);
    assert CutsSpace(s, r, |s| - |t|, |s| - |t| + |r|);
    r
  }

  /** `r` is `s[a..b]` and everything cut off on either side is white space. */
  predicate CutsSpace(s: string, r: string, a: int, b: int) {
    0 <= a <= b <= |s| && r == s[a..b] &&
    (forall i :: 0 <= i < a ==> IsSpace(s[i])) && (forall i :: b <= i < |s| ==> IsSpace(s[i]))
  }

  /** Where `trim` cuts: the leading white space `TrimStart` drops, then the trailing white
      space `TrimEnd` drops from what is left. */
  lemma TrimCuts(s: string, t: string, r: string)
    requires t == TrimStart(s) && r == TrimEnd(t)
    ensures CutsSpace(s, r, |s| - |t|, |s| - |t| + |r|)
    ensures r == [] || (!IsSpace(r[0]) && !IsSpace(r[|r| - 1]))
  {
    SuffixPrefix(s, t, r);
    if r != [] {
      assert r[0] == t[0];
    }
  }

  /** A prefix `r` of a suffix `t` of `s` is the slice of `s` between the two cuts, and `s`
      past the end of `r` is `t` past the end of `r`. */
  lemma SuffixPrefix<T>(s: seq<T>, t: seq<T>, r: seq<T>)
    requires |t| <= |s| && t == s[|s| - |t|..] && |r| <= |t| && r == t[..|r|]
    ensures r == s[|s| - |t|..|s| - |t| + |r|]
    ensures forall i :: |s| - |t| + |r| <= i < |s| ==> s[i] == t[i - (|s| - |t|)]
  {
  }

  // ---------------------------------------------------------------- join and split

  /** `Array.prototype.join(sep)` over strings. */
  function JoinWith(parts: seq<string>, sep: string): string {
    if |parts| == 0 then ""
    else if |parts| == 1 then parts[0]
    else parts[0] + sep + JoinWith(parts[1..], sep)
  }

  /** Concatenation of all parts. */
  function Flatten(parts: seq<string>): string {
    if parts == [] then "" else parts[0] + Flatten(parts[1..])
  }

  /** Joining with the empty separator is plain concatenation. */
  lemma {:induction false} JoinWithEmpty(parts: seq<string>)
    ensures JoinWith(parts, "") == Flatten(parts)
  {
    if |parts| > 1 {
      JoinWithEmpty(parts[1..]);
    }
  }

  lemma {:induction false} FlattenAppend(a: seq<string>, b: seq<string>)
    ensures Flatten(a + b) == Flatten(a) + Flatten(b)
  {
    if a != [] {
      assert (a + b)[1..] == a[1..] + b;
      FlattenAppend(a[1..], b);
    } else {
      assert a + b == b;
    }
  }

  /** Index of the first occurrence of `c` in `s`. */
  function IndexOf(s: string, c: char): (r: Option<nat>)
    ensures r.None? <==> c !in s
    ensures r.Some? ==> r.value < |s| && s[r.value] == c && c !in s[..r.value]
  {
    if s == [] then None
    else if s[0] == c then Some(0)
    else match IndexOf(s[1..], c)
      case None => None
      case Some(i) => assert s[..i + 1] == [s[0]] + s[1..][..i]; Some(i + 1)
  }

  /** `s.split(c)` for a one-character separator: the pieces between occurrences of `c`. */
  function Split(s: string, c: char): (r: seq<string>)
    ensures |r| >= 1
    ensures forall k :: 0 <= k < |r| ==> c !in r[k]
    decreases |s|
  {
    match IndexOf(s, c)
    case None => [s]
    case Some(i) => [s[..i]] + Split(s[i + 1..], c)
  }

  /** Splitting and joining again with the same separator gives back the string. */
  lemma {:induction false} SplitJoin(s: string, c: char)
    ensures JoinWith(Split(s, c), [c]) == s
    decreases |s|
  {
    match IndexOf(s, c)
    case None =>
    case Some(i) =>
      var rest := Split(s[i + 1..], c);
      assert Split(s, c) == [s[..i]] + rest;
      assert ([s[..i]] + rest)[1..] == rest;
      assert JoinWith(Split(s, c), [c]) == s[..i] + [c] + JoinWith(rest, [c]);
      SplitJoin(s[i + 1..], c);
      assert s == s[..i] + [c] + s[i + 1..];
  }

  /** A separator between two strings splits them apart: `(a + "." + b).split(".")` is
      `a.split(".")` followed by `b.split(".")`. */
  lemma {:induction false} SplitAppend(a: string, b: string, c: char)
    ensures Split(a + [c] + b, c) == Split(a, c) + Split(b, c)
    decreases |a|
  {
    match IndexOf(a, c)
    case None =>
      SplitAppendBase(a, b, c);
    case Some(i) =>
      var rest := a[i + 1..];
      SplitAppendStep(a, b, c, i);
      SplitAppend(rest, b, c);
      ConsAppend(a[..i], Split(rest + [c] + b, c), Split(rest, c), Split(b, c));
  }

  lemma ConsAppend<T>(h: T, y: seq<T>, ya: seq<T>, yb: seq<T>)
    requires y == ya + yb
    ensures [h] + y == ([h] + ya) + yb
  {
  }

  lemma SplitAppendBase(a: string, b: string, c: char)
    requires IndexOf(a, c).None?
    ensures Split(a + [c] + b, c) == Split(a, c) + Split(b, c)
  {
    var s := a + [c] + b;
    assert s[..|a|] == a;
    FirstIndex(s, c, |a|);
    assert s[|a| + 1..] == b;
    assert Split(a, c) == [a];
  }

  lemma SplitAppendStep(a: string, b: string, c: char, i: nat)
    requires IndexOf(a, c) == Some(i)
    ensures Split(a + [c] + b, c) == [a[..i]] + Split(a[i + 1..] + [c] + b, c)
    ensures Split(a, c) == [a[..i]] + Split(a[i + 1..], c)
  {
    var s := a + [c] + b;
    assert s[..i] == a[..i];
    FirstIndex(s, c, i);
    SplitUnfold(s, c, i);
    assert s[i + 1..] == a[i + 1..] + [c] + b;
    SplitUnfold(a, c, i);
  }

  /** Unfolding `Split` at the first separator. */
  lemma SplitUnfold(s: string, c: char, i: nat)
    requires IndexOf(s, c) == Some(i)
    ensures Split(s, c) == [s[..i]] + Split(s[i + 1..], c)
  {
  }

  /** The index of `c` is the first position where it occurs. */
  lemma {:induction false} FirstIndex(s: string, c: char, i: nat)
    requires i < |s| && s[i] == c && c !in s[..i]
    ensures IndexOf(s, c) == Some(i)
  {
    if i > 0 {
      assert s[0] == s[..i][0];
      assert s[1..][..i - 1] == s[1..i];
      assert forall x :: x in s[1..i] ==> x in s[..i];
      FirstIndex(s[1..], c, i - 1);
    }
  }

  // ---------------------------------------------------------------- numbers

  predicate IsDigit(c: char) { '0' <= c <= '9' }

  function DigitChar(d: nat): (c: char)
    requires d < 10
    ensures IsDigit(c) && c as int - '0' as int == d
  {
    ('0' as int + d) as char
  }

  /** The decimal rendering of a natural number, as JavaScript's `String(n)` gives it. */
  function NatToString(n: nat): (r: string)
    ensures |r| >= 1 && forall i :: 0 <= i < |r| ==> IsDigit(r[i])
    ensures |r| > 1 ==> r[0] != '0'
  {
    if n < 10 then [DigitChar(n)] else NatToString(n / 10) + [DigitChar(n % 10)]
  }

  /** `String(n)` for an integer: a minus sign before the digits of a negative number. */
  function IntToString(n: int): (r: string)
    ensures |r| >= 1
    ensures n < 0 <==> r[0] == '-'
  {
    if n < 0 then "-" + NatToString(-n) else NatToString(n)
  }

  /** The value of one digit in base `radix` (10 or 16), if `c` is one. */
  function DigitValue(c: char, radix: nat): (r: Option<nat>)
    ensures r.Some? ==> r.value < radix
  {
    if '0' <= c <= '9' && (c as int - '0' as int) < radix then Some(c as int - '0' as int)
    else if radix == 16 && 'a' <= c <= 'f' then Some(c as int - 'a' as int + 10)
    else if radix == 16 && 'A' <= c <= 'F' then Some(c as int - 'A' as int + 10)
    else None
  }

  /** Length of the longest prefix of `s` made of base-`radix` digits. */
  function DigitRun(s: string, radix: nat): (k: nat)
    ensures k <= |s|
    ensures forall i :: 0 <= i < k ==> DigitValue(s[i], radix).Some?
    ensures k < |s| ==> DigitValue(s[k], radix).None?
  {
    if s != [] && DigitValue(s[0], radix).Some? then 1 + DigitRun(s[1..], radix) else 0
  }

  /** The number written by a string of base-`radix` digits. */
  function DigitsValue(s: string, radix: nat): nat
    requires forall i :: 0 <= i < |s| ==> DigitValue(s[i], radix).Some?
  {
    if s == [] then 0 else DigitsValue(s[..|s| - 1], radix) * radix + DigitValue(s[|s| - 1], radix).value
  }

  /** `parseInt` after the sign: a `0x`/`0X` prefix selects base 16, otherwise base 10, and the
      longest run of digits is read; `None` when there is no digit. */
  function ParseUnsigned(u: string): (r: Option<nat>)
  {
    var hex := |u| >= 2 && u[0] == '0' && (u[1] == 'x' || u[1] == 'X');
    var radix := if hex then 16 else 10;
    var body := if hex then u[2..] else u;
    var k := DigitRun(body, radix);
    if k == 0 then None else Some(DigitsValue(body[..k], radix))
  }

  /**
   * The global `parseInt(s)` with no radix: skip leading white space, take one optional
   * sign, then read the digits as `ParseUnsigned` does. `None` stands for NaN. JavaScript
   * returns a double, so digit strings beyond 2^53 lose precision there; here the value
   * is exact.
   */
  function ParseInt(s: string): (r: Option<int>)
  {
    var t := TrimStart(s);
    ApplySign(|t| > 0 && t[0] == '-', ParseUnsigned(AfterSign(t)))
  }

  /** The text after one optional leading sign. */
  function AfterSign(t: string): (u: string) {
    if |t| > 0 && (t[0] == '-' || t[0] == '+') then t[1..] else t
  }

  function ApplySign(negative: bool, r: Option<nat>): Option<int> {
    match r
    case None => None
    case Some(v) => Some(if negative then -(v as int) else v as int)
  }

  /** Every decimal digit string reads back as the number it renders. */
  lemma {:induction false} DigitsOfNat(n: nat)
    ensures forall i :: 0 <= i < |NatToString(n)| ==> DigitValue(NatToString(n)[i], 10).Some?
    ensures DigitsValue(NatToString(n), 10) == n
  {
    var r := NatToString(n);
    forall i | 0 <= i < |r| ensures DigitValue(r[i], 10).Some? {
      assert IsDigit(r[i]);
    }
    if n >= 10 {
      DigitsOfNat(n / 10);
      assert r[..|r| - 1] == NatToString(n / 10);
    }
  }

  /** The digits of a natural number read back as that number. */
  lemma ParseUnsignedNat(n: nat)
    ensures ParseUnsigned(NatToString(n)) == Some(n)
  {
    var d := NatToString(n);
    assert !(|d| >= 2 && d[0] == '0');
    DigitsOfNat(n);
    DigitRunAll(d, 10);
    assert d[..|d|] == d;
  }

  /** `parseInt` reads the rendering of a natural number back. */
  lemma ParseNat(n: nat)
    ensures ParseInt(NatToString(n)) == Some(n as int)
  {
    ParseUnsignedNat(n);
    ParseIntSignedDigits(NatToString(n), "");
    assert "" + NatToString(n) == NatToString(n);
  }

  /** `parseInt` reads a minus sign before the rendering of a natural number as its negation. */
  lemma ParseNegatedNat(n: nat)
    ensures ParseInt("-" + NatToString(n)) == Some(-(n as int))
  {
    var d := NatToString(n);
    ParseUnsignedNat(n);
    ParseIntSignedDigits(d, "-");
    Negated(ParseInt("-" + d), ParseUnsigned(d), n);
  }

  lemma Negated(x: Option<int>, y: Option<nat>, n: nat)
    requires x == ApplySign(true, y) && y == Some(n)
    ensures x == Some(-(n as int))
  {
  }

  /** `parseInt` reads a plus sign before the rendering of a natural number as that number. */
  lemma ParsePlusNat(n: nat)
    ensures ParseInt("+" + NatToString(n)) == Some(n as int)
  {
    ParseUnsignedNat(n);
    ParseIntSignedDigits(NatToString(n), "+");
  }

  /** An optional sign before text starting with a digit applies to what `ParseUnsigned` reads. */
  lemma ParseIntSignedDigits(d: string, sign: string)
    requires d != [] && IsDigit(d[0])
    requires sign == "" || sign == "+" || sign == "-"
    ensures ParseInt(sign + d) == ApplySign(sign == "-", ParseUnsigned(d))
  {
    SignedDigitsTrimmed(d, sign);
    SignedDigitsAfterSign(d, sign);
    SignedDigitsNegative(d, sign);
  }

  lemma SignedDigitsTrimmed(d: string, sign: string)
    requires d != [] && IsDigit(d[0])
    requires sign == "" || sign == "+" || sign == "-"
    ensures TrimStart(sign + d) == sign + d
  {
    var s := sign + d;
    assert s[0] == if sign == "" then d[0] else sign[0];
    assert !IsSpace(s[0]);
  }

  lemma SignedDigitsAfterSign(d: string, sign: string)
    requires d != [] && IsDigit(d[0])
    requires sign == "" || sign == "+" || sign == "-"
    ensures AfterSign(sign + d) == d
  {
    if sign == "" {
      assert sign + d == d;
    } else {
      assert (sign + d)[1..] == d;
    }
  }

  lemma SignedDigitsNegative(d: string, sign: string)
    requires d != [] && IsDigit(d[0])
    requires sign == "" || sign == "+" || sign == "-"
    ensures (sign + d)[0] == '-' <==> sign == "-"
  {
    if sign == "" {
      assert (sign + d)[0] == d[0];
    } else {
      assert (sign + d)[0] == sign[0];
    }
  }

  lemma {:induction false} DigitRunAll(s: string, radix: nat)
    requires forall i :: 0 <= i < |s| ==> DigitValue(s[i], radix).Some?
    ensures DigitRun(s, radix) == |s|
  {
    if s != [] {
      DigitRunAll(s[1..], radix);
    }
  }

  /** Round trip: `parseInt(String(n)) === n` for every integer. */
  lemma ParseIntToString(n: int)
    ensures ParseInt(IntToString(n)) == Some(n)
  {
    if n < 0 {
      ParseNegativeToString(n);
    } else {
      ParseNonNegativeToString(n);
    }
  }

  lemma ParseNegativeToString(n: int)
    requires n < 0
    ensures ParseInt(IntToString(n)) == Some(n)
  {
    var m: nat := -n;
    ParseNegatedNat(m);
    assert IntToString(n) == "-" + NatToString(m);
  }

  lemma ParseNonNegativeToString(n: int)
    requires n >= 0
    ensures ParseInt(IntToString(n)) == Some(n)
  {
    assert IntToString(n) == NatToString(n);
    ParseNat(n);
  }

  /** Text with no leading digit holds no number. */
  lemma NoLeadingDigit(t: string)
    requires t == [] || !IsDigit(t[0])
    ensures ParseUnsigned(t) == None
  {
    assert t == [] || DigitValue(t[0], 10).None?;
    assert t == [] || DigitRun(t, 10) == 0;
  }

  /** A string whose first non-blank character is neither a sign nor a digit parses to NaN. */
  lemma ParseIntNaN(s: string)
    requires var t := TrimStart(s); t == [] || (t[0] != '+' && t[0] != '-' && !IsDigit(t[0]))
    ensures ParseInt(s) == None
  {
    var t := TrimStart(s);
    assert AfterSign(t) == t;
    NoLeadingDigit(t);
  }
}
