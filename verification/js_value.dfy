/** JSON values as the request body parser hands them to the handlers, and
    the two JavaScript string builtins the validators rely on:
    `String.prototype.trim` and the UTF-16 `length` of a string. */
module JsValue {

  /** A parsed JSON value. Numbers are integers in this model. */
  datatype Json =
    | JNull
    | JBool(b: bool)
    | JNum(n: int)
    | JStr(s: string)
    | JArr(items: seq<Json>)
    | JObj(fields: map<string, Json>)

  /** A plain JavaScript object. A key that is absent reads as `undefined`. */
  type Object = map<string, Json>

  /** ECMAScript WhiteSpace and LineTerminator code points: the set `trim` strips. */
  const Whitespace: set<char> := {
    '\t', '\n', '\U{000B}', '\U{000C}', '\r', ' ', '\U{00A0}', '\U{1680}',
    '\U{2000}', '\U{2001}', '\U{2002}', '\U{2003}', '\U{2004}', '\U{2005}',
    '\U{2006}', '\U{2007}', '\U{2008}', '\U{2009}', '\U{200A}',
    '\U{2028}', '\U{2029}', '\U{202F}', '\U{205F}', '\U{3000}', '\U{FEFF}'
  }

  predicate IsWhitespace(c: char) {
    c in Whitespace
  }

  /** Number of UTF-16 code units one code point occupies. */
  function CodeUnits(c: char): nat {
    if c as int > 0xFFFF then 2 else 1
  }

  /** The JavaScript `length` of a string: its UTF-16 code-unit count. */
  function Utf16Length(s: string): (n: nat)
    ensures |s| <= n <= 2 * |s|
    ensures (forall k :: 0 <= k < |s| ==> s[k] as int <= 0xFFFF) ==> n == |s|
  {
    if |s| == 0 then 0 else CodeUnits(s[0]) + Utf16Length(s[1..])
  }

  /** The first position at or after `i` that does not hold whitespace
      (or `|s|`): where the text starts once leading whitespace is cut. */
  function TextStart(s: string, i: nat): (a: nat)
    requires i <= |s|
    ensures i <= a <= |s|
    ensures forall k :: i <= k < a ==> IsWhitespace(s[k])
    ensures a == |s| || !IsWhitespace(s[a])
    decreases |s| - i
  {
    if i < |s| && IsWhitespace(s[i]) then TextStart(s, i + 1) else i
  }

  /** The last position `b` at or before `j`, but not before `lo`, such that
      `s[b - 1]` is not whitespace (or `lo`): where the text ends once
      trailing whitespace is cut. */
  function TextEnd(s: string, lo: nat, j: nat): (b: nat)
    requires lo <= j <= |s|
    ensures lo <= b <= j
    ensures forall k :: b <= k < j ==> IsWhitespace(s[k])
    ensures b == lo || !IsWhitespace(s[b - 1])
    decreases j
  {
    if j > lo && IsWhitespace(s[j - 1]) then TextEnd(s, lo, j - 1) else j
  }

  /** `String.prototype.trim`: the slice of `s` left once the whitespace at
      both ends is cut away. Everything cut is whitespace, and the result
      neither starts nor ends with whitespace. */
  function Trim(s: string): (t: string)
    ensures |t| <= |s|
    ensures TextStart(s, 0) + |t| <= |s|
    ensures t == s[TextStart(s, 0)..TextStart(s, 0) + |t|]
    ensures forall k :: 0 <= k < TextStart(s, 0) ==> IsWhitespace(s[k])
    ensures forall k :: TextStart(s, 0) + |t| <= k < |s| ==> IsWhitespace(s[k])
    ensures |t| == 0 || (!IsWhitespace(t[0]) && !IsWhitespace(t[|t| - 1]))
  {
    var a := TextStart(s, 0);
    var b := TextEnd(s, a, |s|);
    s[a..b]
  }

  /** A string with no whitespace at either end is left as it is by `trim`. */
  lemma TrimOfTrimmed(s: string)
    requires |s| == 0 || (!IsWhitespace(s[0]) && !IsWhitespace(s[|s| - 1]))
    ensures Trim(s) == s
  {
    assert TextStart(s, 0) == 0;
  }

  /** Trimming twice is trimming once. */
  lemma TrimIdempotent(s: string)
    ensures Trim(Trim(s)) == Trim(s)
  {
    TrimOfTrimmed(Trim(s));
  }
}
