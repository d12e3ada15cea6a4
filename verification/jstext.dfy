/**
 The handful of JavaScript string primitives the plugin relies on, stated over
 `string` (a sequence of Unicode scalar values).
 */
module JsText {

  /** `prefix` is an initial segment of `s`. */
  predicate StartsWith(s: string, prefix: string) {
    |prefix| <= |s| && s[..|prefix|] == prefix
  }

  /** The LineTerminator code points of ECMAScript: what a regex `.` refuses. */
  predicate IsLineTerminator(c: char) {
    c == '\n' || c == '\r' || c == '\U{2028}' || c == '\U{2029}'
  }

  /**
   The regex class `\s`: ECMAScript WhiteSpace (tab, vertical tab, form feed,
   byte-order mark and the Unicode space separators) plus the line terminators.
   */
  predicate IsWhitespace(c: char) {
    || c == '\t' || c == '\U{000B}' || c == '\U{000C}' || c == ' '
    || c == '\U{00A0}' || c == '\U{1680}' || ('\U{2000}' <= c <= '\U{200A}')
    || c == '\U{202F}' || c == '\U{205F}' || c == '\U{3000}' || c == '\U{FEFF}'
    || IsLineTerminator(c)
  }

  /** True when no character of `s` is matched by `\s`. */
  predicate NoWhitespace(s: string) {
    forall i | 0 <= i < |s| :: !IsWhitespace(s[i])
  }

  predicate IsAsciiUpper(c: char) {
    'A' <= c <= 'Z'
  }

  /** Lower-casing restricted to ASCII letters; every other character is kept. */
  function AsciiLower(c: char): (r: char)
    ensures !IsAsciiUpper(r)
    ensures IsWhitespace(r) <==> IsWhitespace(c)
    ensures !IsAsciiUpper(c) ==> r == c
  {
    if IsAsciiUpper(c) then (c as int + 32) as char else c
  }

  /** Lower-casing in the en-US locale, restricted to ASCII letters. */
  function LowerCase(s: string): (r: string)
    ensures |r| == |s|
    ensures forall i | 0 <= i < |s| :: r[i] == AsciiLower(s[i])
  {
    seq(|s|, i requires 0 <= i < |s| => AsciiLower(s[i]))
  }

  /** The `[0-9a-z]` class under the regex `i` flag: ASCII digits and letters. */
  predicate IsAsciiAlnum(c: char) {
    ('0' <= c <= '9') || ('a' <= c <= 'z') || ('A' <= c <= 'Z')
  }

  /** The first piece of `s` split at `sep`: the text before the first `sep`, or all of `s`. */
  function BeforeFirst(s: string, sep: char): (r: string)
    ensures sep !in r
    ensures StartsWith(s, r)
    ensures sep in s ==> |r| < |s| && s[|r|] == sep
    ensures sep !in s ==> r == s
  {
    if s == [] then []
    else if s[0] == sep then []
    else [s[0]] + BeforeFirst(s[1..], sep)
  }

  /** A form value the code reads as a string: a string, `null`, or missing (`undefined`). */
  datatype StringValue = Given(text: string) | NullValue | Undefined

  /** The text a template literal prints for the value. */
  function Interpolate(v: StringValue): (r: string)
    ensures v.Given? ==> r == v.text
    ensures v.NullValue? ==> r == "null"
    ensures v.Undefined? ==> r == "undefined"
  {
    match v
    case Given(text) => text
    case NullValue => "null"
    case Undefined => "undefined"
  }

  /**
   How an error object prints, as `Error.prototype.toString` prints it: its
   name and message joined by ": ", or only the one of them that is non-empty.
   */
  function ErrorString(name: string, message: string): (r: string)
    ensures name == "" ==> r == message
    ensures name != "" && message == "" ==> r == name
    ensures name != "" && message != "" ==> r == name + ": " + message
  {
    if name == "" then message
    else if message == "" then name
    else name + ": " + message
  }
}
