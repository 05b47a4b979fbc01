/** sanitizeHex as written (app.js:46-55) upper-cases with JavaScript's full
    toUpperCase before it tests HEX_PATTERN. Upper-casing can lengthen a
    string: the ligature U+FB00 becomes "FF", so a five-character input is
    accepted as six hex digits. This module models that order and exhibits
    the input; HexColour.SanitizeHex is the corrected definition, which tests
    the six digits (case-insensitively, as the /i flag says) first. */
module UpperCaseFinding {
  import opened Wrappers
  import opened JsText
  import opened HexColour

  /** String.prototype.toUpperCase on one character, as far as it decides
      whether a text upper-cases to ASCII hex digits: the ASCII letters, and
      every character whose upper case consists only of ASCII letters (the
      sharp s, dotless i, long s and the Latin ligatures U+FB00-U+FB06).
      Every other character is kept. That is not what JavaScript does for
      other letters (it gives U+00C9 for U+00E9, and "A" followed by U+02BE
      for U+1E9A), but their upper case always holds a character that is not
      an ASCII letter, so a text containing one is refused either way. */
  function JsUpperChar(c: char): string {
    if 'a' <= c <= 'z' then [UpperChar(c)]
    else if c == '\U{00DF}' then "SS"
    else if c == '\U{0131}' then "I"
    else if c == '\U{017F}' then "S"
    else if c == '\U{FB00}' then "FF"
    else if c == '\U{FB01}' then "FI"
    else if c == '\U{FB02}' then "FL"
    else if c == '\U{FB03}' then "FFI"
    else if c == '\U{FB04}' then "FFL"
    else if c == '\U{FB05}' || c == '\U{FB06}' then "ST"
    else [c]
  }

  /** String.prototype.toUpperCase, character by character. */
  function JsUpperCase(s: string): string {
    if s == [] then [] else JsUpperChar(s[0]) + JsUpperCase(s[1..])
  }

  /** sanitizeHex with the statements in the order app.js has them:
      upper-case, then test /^[0-9a-f]{6}$/i. */
  function SanitizeHexAsWritten(value: string): Option<string> {
    if value == "" then None
    else
      var normalized := JsUpperCase(StripHash(Trim(value)));
      if IsHex6(normalized) then Some("#" + normalized) else None
  }

  /** The discrepancy: "\U{FB00}0000" has five characters, is not six hex
      digits, and the corrected sanitizeHex refuses it, yet the code as
      written returns "#FF0000" for it. */
  lemma LigatureAccepted()
    ensures |"\U{FB00}0000"| == 5 && !IsHex6(Stripped("\U{FB00}0000"))
    ensures SanitizeHexAsWritten("\U{FB00}0000") == Some("#FF0000")
    ensures SanitizeHex("\U{FB00}0000") == None
  {
    var v := "\U{FB00}0000";
    assert !IsTrimmable(v[0]) && !IsTrimmable(v[4]);
    TrimmedIsFixed(v);
    assert StripHash(Trim(v)) == v;
    assert JsUpperCase(v) == "FF" + JsUpperCase(v[1..]);
    assert JsUpperCase("0") == "0";
    assert JsUpperCase("00") == "0" + JsUpperCase("0");
    assert JsUpperCase("000") == "0" + JsUpperCase("00");
    assert JsUpperCase("0000") == "0" + JsUpperCase("000");
    assert v[1..] == "0000";
    assert "FF" + "0000" == "FF0000";
    assert IsHex6("FF0000");
    assert JsUpperCase(StripHash(Trim(v))) == "FF0000";
    assert SanitizeHexAsWritten(v) == Some("#" + "FF0000");
    assert "#" + "FF0000" == "#FF0000";
  }

  /** On ASCII text toUpperCase only upper-cases letters. */
  lemma {:induction false} JsUpperAscii(s: string)
    requires IsAscii(s)
    ensures JsUpperCase(s) == UpperAscii(s)
  {
    if s != [] {
      JsUpperAscii(s[1..]);
    }
  }

  /** Trimming and dropping '#' keep a string ASCII. */
  lemma StrippedAscii(value: string)
    requires IsAscii(value)
    ensures IsAscii(Stripped(value))
  {
    TrimStartSuffix(value);
    var t := TrimStart(value);
    assert forall i :: 0 <= i < |t| ==> t[i] == value[|value| - |t| + i];
    TrimEndPrefix(t);
  }

  /** The fault needs a non-ASCII character: on ASCII input the code as
      written and the corrected sanitizeHex agree. */
  lemma AsWrittenAgreesOnAscii(value: string)
    requires IsAscii(value)
    ensures SanitizeHexAsWritten(value) == SanitizeHex(value)
  {
    var x := Stripped(value);
    StrippedAscii(value);
    JsUpperAscii(x);
    assert IsHex6(UpperAscii(x)) <==> IsHex6(x) by {
      forall i | 0 <= i < |x| ensures IsHexDigit(UpperAscii(x)[i]) <==> IsHexDigit(x[i]) {
        if IsHexDigit(x[i]) { UpperDigitValue(x[i]); }
      }
    }
  }
}
