/** JavaScript strings are sequences of UTF-16 code units: `length` and the
    regular-expression engine (without the `u` flag) count and match code
    units, not Unicode scalar values. Dafny strings
    hold scalar values, so this module gives their UTF-16 view. */
module JsStrings {

  type CodeUnit = u: int | 0 <= u < 0x1_0000

  /** The UTF-16 encoding of one scalar value: itself below U+10000,
      otherwise a high and a low surrogate. */
  function CharUnits(c: char): (units: seq<CodeUnit>)
    ensures 1 <= |units| <= 2
    ensures |units| == 1 <==> c as int < 0x1_0000
    ensures |units| == 1 ==> units[0] == c as int
    ensures |units| == 2 ==> 0xD800 <= units[0] < 0xDC00 <= units[1] < 0xE000
  {
    var v := c as int;
    if v < 0x1_0000 then [v]
    else [0xD800 + (v - 0x1_0000) / 0x400, 0xDC00 + (v - 0x1_0000) % 0x400]
  }

  /** The UTF-16 encoding of a string. */
  function Utf16Units(s: string): (units: seq<CodeUnit>)
    ensures |s| <= |units| <= 2 * |s|
  {
    if s == [] then [] else CharUnits(s[0]) + Utf16Units(s[1..])
  }

  /** JavaScript's `s.length`. */
  function JsLength(s: string): nat {
    |Utf16Units(s)|
  }

  /** A string of characters outside the Basic Multilingual Plane (emoji,
      say) has twice as many code units as characters. */
  lemma {:induction false} AstralLength(s: string)
    requires forall i :: 0 <= i < |s| ==> s[i] as int >= 0x1_0000
    ensures JsLength(s) == 2 * |s|
  {
    if s != [] {
      AstralLength(s[1..]);
    }
  }

  /** The code units that the regular-expression class `\s` matches:
      WhiteSpace and LineTerminator of ECMAScript. Neither `/` nor a
      surrogate half is one of them. */
  predicate IsWhitespaceUnit(u: int)
    ensures IsWhitespaceUnit(u) ==> u != 0x2F && !(0xD800 <= u < 0xE000)
  {
    || u == 0x09 || u == 0x0A || u == 0x0B || u == 0x0C || u == 0x0D
    || u == 0x20 || u == 0xA0 || u == 0x1680
    || (0x2000 <= u <= 0x200A)
    || u == 0x2028 || u == 0x2029 || u == 0x202F || u == 0x205F
    || u == 0x3000 || u == 0xFEFF
  }
}
