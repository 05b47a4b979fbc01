/** The parts of JavaScript's String.prototype that the colour code relies on:
    trim, startsWith("#")/slice(1), and upper-casing of ASCII letters. */
module JsText {

  /** The characters String.prototype.trim removes: the WhiteSpace and
      LineTerminator code points of ECMA-262 (sections 12.2 and 12.3), with
      the space separators (category Zs) of Unicode 15. */
  predicate IsTrimmable(c: char) {
    || c == '\t' || c == '\n' || c == '\U{000B}' || c == '\U{000C}' || c == '\r'
    || c == ' ' || c == '\U{00A0}' || c == '\U{1680}'
    || ('\U{2000}' <= c <= '\U{200A}')
    || c == '\U{2028}' || c == '\U{2029}' || c == '\U{202F}' || c == '\U{205F}'
    || c == '\U{3000}' || c == '\U{FEFF}'
  }

  /** Drops the leading trimmable characters. */
  function TrimStart(s: string): string {
    if s != [] && IsTrimmable(s[0]) then TrimStart(s[1..]) else s
  }

  /** Drops the trailing trimmable characters. */
  function TrimEnd(s: string): string {
    if s != [] && IsTrimmable(s[|s| - 1]) then TrimEnd(s[..|s| - 1]) else s
  }

  /** String.prototype.trim. */
  function Trim(s: string): string {
    TrimEnd(TrimStart(s))
  }

  /** TrimStart leaves a suffix of `s`, drops only trimmable characters, and
      what it leaves does not start with one. */
  lemma {:induction false} TrimStartSuffix(s: string)
    ensures var r := TrimStart(s);
      && |r| <= |s| && r == s[|s| - |r|..]
      && (forall i :: 0 <= i < |s| - |r| ==> IsTrimmable(s[i]))
      && (r != [] ==> !IsTrimmable(r[0]))
  {
    if s != [] && IsTrimmable(s[0]) {
      TrimStartSuffix(s[1..]);
      var r := TrimStart(s);
      assert forall i :: 1 <= i < |s| - |r| ==> s[i] == s[1..][i - 1];
    }
  }

  /** TrimEnd leaves a prefix of `s`, drops only trimmable characters, and
      what it leaves does not end with one. */
  lemma {:induction false} TrimEndPrefix(s: string)
    ensures var r := TrimEnd(s);
      && |r| <= |s| && r == s[..|r|]
      && (forall i :: |r| <= i < |s| ==> IsTrimmable(s[i]))
      && (r != [] ==> !IsTrimmable(r[|r| - 1]))
  {
    if s != [] && IsTrimmable(s[|s| - 1]) {
      TrimEndPrefix(s[..|s| - 1]);
    }
  }

  /** A string that neither starts nor ends with a trimmable character is
      left as it is by Trim. */
  lemma TrimmedIsFixed(s: string)
    requires s != [] ==> !IsTrimmable(s[0]) && !IsTrimmable(s[|s| - 1])
    ensures Trim(s) == s
  {
  }

  /** Trim keeps a leading character that is not trimmable. */
  lemma TrimKeepsFirst(s: string)
    requires s != [] && !IsTrimmable(s[0])
    ensures Trim(s) != [] && Trim(s)[0] == s[0]
  {
    assert TrimStart(s) == s;
    TrimEndPrefix(s);
  }

  /** `t.startsWith("#") ? t.slice(1) : t`: drops at most one leading '#'. */
  function StripHash(t: string): string {
    if t != [] && t[0] == '#' then t[1..] else t
  }

  /** Upper-casing of one character, restricted to ASCII letters. */
  function UpperChar(c: char): (u: char)
    ensures !('a' <= u <= 'z')
    ensures 'a' <= c <= 'z' ==> 'A' <= u <= 'Z' && u as int - 'A' as int == c as int - 'a' as int
    ensures !('a' <= c <= 'z') ==> u == c
  {
    if 'a' <= c <= 'z' then (c as int - 32) as char else c
  }

  /** Upper-casing of every ASCII letter of `s`; other characters are kept. */
  function UpperAscii(s: string): (r: string)
    ensures |r| == |s| && forall i {:trigger r[i]} :: 0 <= i < |s| ==> r[i] == UpperChar(s[i])
  {
    if s == [] then [] else [UpperChar(s[0])] + UpperAscii(s[1..])
  }

  /** Upper-casing is idempotent. */
  lemma UpperAsciiIdempotent(s: string)
    ensures UpperAscii(UpperAscii(s)) == UpperAscii(s)
  {
  }

  predicate IsAscii(s: string) {
    forall i :: 0 <= i < |s| ==> s[i] < '\U{80}'
  }

  /** Upper-casing neither creates nor removes trimmable characters. */
  lemma UpperKeepsTrimmable(c: char)
    ensures IsTrimmable(UpperChar(c)) == IsTrimmable(c)
  {
  }

  /** Upper-casing a string and trimming it can be done in either order. */
  lemma {:induction false} TrimStartUpper(s: string)
    ensures TrimStart(UpperAscii(s)) == UpperAscii(TrimStart(s))
  {
    if s != [] {
      var u := UpperAscii(s);
      UpperKeepsTrimmable(s[0]);
      assert u[0] == UpperChar(s[0]);
      assert u[1..] == UpperAscii(s[1..]);
      TrimStartUpper(s[1..]);
    }
  }

  lemma {:induction false} TrimEndUpper(s: string)
    ensures TrimEnd(UpperAscii(s)) == UpperAscii(TrimEnd(s))
  {
    if s != [] {
      var u := UpperAscii(s);
      UpperKeepsTrimmable(s[|s| - 1]);
      assert u[|s| - 1] == UpperChar(s[|s| - 1]);
      UpperAsciiPrefix(s);
      TrimEndUpper(s[..|s| - 1]);
    }
  }

  lemma {:induction false} UpperAsciiPrefix(s: string)
    requires s != []
    ensures UpperAscii(s)[..|s| - 1] == UpperAscii(s[..|s| - 1])
  {
    var u, v := UpperAscii(s), UpperAscii(s[..|s| - 1]);
    assert forall i :: 0 <= i < |s| - 1 ==> u[i] == v[i];
  }

  /** Upper-casing works character by character, so it distributes over
      concatenation. */
  lemma UpperAsciiConcat(a: string, b: string)
    ensures UpperAscii(a + b) == UpperAscii(a) + UpperAscii(b)
  {
    var l, r := UpperAscii(a + b), UpperAscii(a) + UpperAscii(b);
    assert forall i :: 0 <= i < |a| + |b| ==> l[i] == r[i];
  }

  lemma StripHashUpper(t: string)
    ensures StripHash(UpperAscii(t)) == UpperAscii(StripHash(t))
  {
    if t != [] {
      assert UpperAscii(t)[0] == '#' <==> t[0] == '#';
      assert UpperAscii(t)[1..] == UpperAscii(t[1..]);
    }
  }

  lemma TrimUpper(s: string)
    ensures Trim(UpperAscii(s)) == UpperAscii(Trim(s))
    ensures StripHash(Trim(UpperAscii(s))) == UpperAscii(StripHash(Trim(s)))
  {
    TrimStartUpper(s);
    TrimEndUpper(TrimStart(s));
    StripHashUpper(Trim(s));
  }
}
