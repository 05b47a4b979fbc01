/** Hexadecimal colour strings (app.js:32, 46-72): sanitizeHex, hexToRgb and
    rgbToHex, with the round trips between them. */
module HexColour {
  import opened Wrappers
  import opened JsText

  /** A colour channel: an integer in 0..255. */
  type Byte = x: int | 0 <= x < 256

  /** The `{ r, g, b }` object hexToRgb returns. */
  datatype Rgb = Rgb(r: Byte, g: Byte, b: Byte)

  predicate IsHexDigit(c: char) {
    '0' <= c <= '9' || 'a' <= c <= 'f' || 'A' <= c <= 'F'
  }

  predicate IsUpperHexDigit(c: char) {
    '0' <= c <= '9' || 'A' <= c <= 'F'
  }

  predicate AllHexDigits(s: string) {
    forall i :: 0 <= i < |s| ==> IsHexDigit(s[i])
  }

  /** HEX_PATTERN, /^[0-9a-f]{6}$/i: exactly six hex digits of either case. */
  predicate IsHex6(s: string) {
    |s| == 6 && AllHexDigits(s)
  }

  /** `#RRGGBB` with upper-case digits, the only form sanitizeHex returns. */
  predicate IsCanonical(h: string) {
    |h| == 7 && h[0] == '#' && forall i :: 1 <= i < 7 ==> IsUpperHexDigit(h[i])
  }

  function DigitValue(c: char): (d: nat)
    requires IsHexDigit(c)
    ensures d < 16
  {
    if '0' <= c <= '9' then c as int - '0' as int
    else if 'a' <= c <= 'f' then c as int - 'a' as int + 10
    else c as int - 'A' as int + 10
  }

  /** The digit Number.prototype.toString(16) writes for `d`. */
  function LowerDigit(d: nat): (c: char)
    requires d < 16
    ensures IsHexDigit(c) && DigitValue(c) == d
  {
    if d < 10 then ('0' as int + d) as char else ('a' as int + d - 10) as char
  }

  function UpperDigit(d: nat): (c: char)
    requires d < 16
    ensures IsUpperHexDigit(c) && DigitValue(c) == d
    ensures UpperChar(LowerDigit(d)) == c
  {
    if d < 10 then ('0' as int + d) as char else ('A' as int + d - 10) as char
  }

  /** Upper-casing a hex digit keeps its value. */
  lemma UpperDigitValue(c: char)
    requires IsHexDigit(c)
    ensures IsUpperHexDigit(UpperChar(c)) && DigitValue(UpperChar(c)) == DigitValue(c)
  {
  }

  /** An upper-case digit is the one UpperDigit writes for its value. */
  lemma UpperDigitOfValue(c: char)
    requires IsUpperHexDigit(c)
    ensures UpperDigit(DigitValue(c)) == c
  {
  }

  function Pow16(k: nat): (p: nat)
    ensures p >= 1
  {
    if k == 0 then 1 else 16 * Pow16(k - 1)
  }

  /** parseInt(s, 16) on a string made of hex digits only: the value of `s`
      read as a base-16 numeral, below 16 to the power of its length. */
  function ParseHex(s: string): (n: nat)
    requires AllHexDigits(s)
    ensures n < Pow16(|s|)
  {
    if s == [] then 0
    else
      var p := ParseHex(s[..|s| - 1]);
      var d := DigitValue(s[|s| - 1]);
      assert 16 * p + d < 16 * Pow16(|s| - 1) by {
        assert p + 1 <= Pow16(|s| - 1);
        assert 16 * (p + 1) <= 16 * Pow16(|s| - 1);
      }
      16 * p + d
  }

  /** A two-digit numeral, as parseInt(value.slice(i, i + 2), 16) reads it. */
  lemma {:induction false} ParsePair(s: string)
    requires |s| == 2 && AllHexDigits(s)
    ensures ParseHex(s) == 16 * DigitValue(s[0]) + DigitValue(s[1]) < 256
  {
    assert s[..1][..0] == [];
    assert s[..1] == [s[0]];
  }

  /** Reading a numeral does not depend on the case of its digits. */
  lemma {:induction false} ParseHexIgnoresCase(s: string)
    requires AllHexDigits(s)
    ensures AllHexDigits(UpperAscii(s)) && ParseHex(UpperAscii(s)) == ParseHex(s)
  {
    forall i | 0 <= i < |s| ensures IsHexDigit(UpperAscii(s)[i]) {
      UpperDigitValue(s[i]);
    }
    if s != [] {
      var u := UpperAscii(s);
      assert UpperAscii(s[..|s| - 1]) == u[..|u| - 1];
      ParseHexIgnoresCase(s[..|s| - 1]);
      UpperDigitValue(s[|s| - 1]);
    }
  }

  /** The trimmed input with at most one leading '#' removed: the part of its
      argument that sanitizeHex tests against HEX_PATTERN. */
  function Stripped(value: string): string {
    StripHash(Trim(value))
  }

  /** Upper-casing six hex digits and putting '#' in front gives a canonical
      colour with the same digit values. */
  lemma UpperHex6(s: string)
    requires IsHex6(s)
    ensures IsCanonical("#" + UpperAscii(s))
    ensures forall i :: 0 <= i < 6 ==> DigitValue(("#" + UpperAscii(s))[i + 1]) == DigitValue(s[i])
  {
    var r := "#" + UpperAscii(s);
    forall i | 0 <= i < 6 ensures IsUpperHexDigit(r[i + 1]) && DigitValue(r[i + 1]) == DigitValue(s[i]) {
      UpperDigitValue(s[i]);
    }
  }

  /** sanitizeHex (app.js:46-55). The pattern is tested case-insensitively
      before upper-casing; app.js upper-cases first, which only differs for
      characters whose upper case is an ASCII hex digit (see module
      UpperCaseFinding). Whatever it returns is a canonical colour; which
      inputs it accepts is stated by SanitizeHexAccepts. */
  function SanitizeHex(value: string): (r: Option<string>)
    ensures r.Some? ==> IsCanonical(r.value)
  {
    if value == "" then None
    else
      var stripped := Stripped(value);
      if IsHex6(stripped) then
        UpperHex6(stripped);
        Some("#" + UpperAscii(stripped))
      else None
  }

  /** sanitizeHex accepts exactly the inputs whose trimmed text, minus at most
      one leading '#', is six hex digits of either case, and then returns '#'
      followed by those same digits. */
  lemma SanitizeHexAccepts(value: string)
    ensures SanitizeHex(value).Some? <==> IsHex6(Stripped(value))
    ensures SanitizeHex(value).Some? ==>
      forall i :: 0 <= i < 6 ==> DigitValue(SanitizeHex(value).value[i + 1]) == DigitValue(Stripped(value)[i])
  {
    if IsHex6(Stripped(value)) {
      UpperHex6(Stripped(value));
    }
  }

  /** sanitizeHex does not depend on the case of its input. */
  lemma SanitizeHexIgnoresCase(value: string)
    ensures SanitizeHex(UpperAscii(value)) == SanitizeHex(value)
  {
    TrimUpper(value);
    var x := Stripped(value);
    assert Stripped(UpperAscii(value)) == UpperAscii(x);
    assert IsHex6(UpperAscii(x)) <==> IsHex6(x) by {
      forall i | 0 <= i < |x| ensures IsHexDigit(UpperAscii(x)[i]) <==> IsHexDigit(x[i]) {
        if IsHexDigit(x[i]) { UpperDigitValue(x[i]); }
      }
    }
    UpperAsciiIdempotent(x);
  }

  /** hexToRgb does not depend on the case of its input. */
  lemma HexToRgbIgnoresCase(value: string)
    ensures HexToRgb(UpperAscii(value)) == HexToRgb(value)
  {
    SanitizeHexIgnoresCase(value);
  }

  /** A canonical colour is its own sanitised form. */
  lemma CanonicalIsFixed(h: string)
    requires IsCanonical(h)
    ensures SanitizeHex(h) == Some(h)
  {
    TrimmedIsFixed(h);
    assert Stripped(h) == h[1..];
    assert UpperAscii(h[1..]) == h[1..];
    assert "#" + h[1..] == h;
  }

  /** sanitizeHex is idempotent: whatever it returns, it maps to itself. */
  lemma SanitizeHexIdempotent(value: string)
    requires SanitizeHex(value).Some?
    ensures SanitizeHex(SanitizeHex(value).value) == SanitizeHex(value)
  {
    CanonicalIsFixed(SanitizeHex(value).value);
  }

  /** Only one leading '#' is dropped: "##" followed by anything is refused. */
  lemma DoubleHashRejected(t: string)
    ensures SanitizeHex("##" + t) == None
  {
    var s := "##" + t;
    TrimKeepsFirst(s);
    var tr := Trim(s);
    TrimEndPrefix(s);
    assert TrimStart(s) == s;
    assert !IsTrimmable(s[1]);
    assert |tr| >= 2 && tr[1] == '#';
    assert Stripped(s)[0] == '#';
  }

  /** The three parseInt(value.slice(i, i + 2), 16) calls of hexToRgb on a
      canonical colour: each channel is the value of its pair of digits. */
  function Channels(h: string): Rgb
    requires IsCanonical(h)
  {
    Rgb(PairValue(h[1], h[2]), PairValue(h[3], h[4]), PairValue(h[5], h[6]))
  }

  /** parseInt of a two-digit slice, `16 * high + low`. */
  function PairValue(high: char, low: char): Byte
    requires IsHexDigit(high) && IsHexDigit(low)
  {
    16 * DigitValue(high) + DigitValue(low)
  }

  /** Each channel of a canonical colour is parseInt of its two-character
      slice of `value = h.slice(1)`. */
  lemma ChannelsParse(h: string)
    requires IsCanonical(h)
    ensures var v, c := h[1..], Channels(h);
      && AllHexDigits(v)
      && c.r == ParseHex(v[0..2]) && c.g == ParseHex(v[2..4]) && c.b == ParseHex(v[4..6])
  {
    var v := h[1..];
    assert AllHexDigits(v);
    assert v[0..2] == [h[1], h[2]] && v[2..4] == [h[3], h[4]] && v[4..6] == [h[5], h[6]];
    ParsePair(v[0..2]);
    ParsePair(v[2..4]);
    ParsePair(v[4..6]);
  }

  /** hexToRgb (app.js:57-67): it fails exactly when sanitizeHex does, and
      otherwise reads the three pairs of the sanitised digits. */
  function HexToRgb(hex: string): (c: Option<Rgb>)
    ensures c.Some? <==> SanitizeHex(hex).Some?
  {
    if hex == "" then None
    else
      var sanitized := SanitizeHex(hex);
      if sanitized.None? then None else Some(Channels(sanitized.value))
  }

  /** Each channel hexToRgb returns is the value of the corresponding pair of
      hex digits of the stripped input. */
  lemma HexToRgbChannels(hex: string)
    requires HexToRgb(hex).Some?
    ensures var c, s := HexToRgb(hex).value, Stripped(hex);
      && c.r == 16 * DigitValue(s[0]) + DigitValue(s[1])
      && c.g == 16 * DigitValue(s[2]) + DigitValue(s[3])
      && c.b == 16 * DigitValue(s[4]) + DigitValue(s[5])
  {
    SanitizeHexAccepts(hex);
    var h := SanitizeHex(hex).value;
    var s := Stripped(hex);
    assert DigitValue(h[1]) == DigitValue(s[0]) && DigitValue(h[2]) == DigitValue(s[1]);
    assert DigitValue(h[3]) == DigitValue(s[2]) && DigitValue(h[4]) == DigitValue(s[3]);
    assert DigitValue(h[5]) == DigitValue(s[4]) && DigitValue(h[6]) == DigitValue(s[5]);
  }

  /** Number.prototype.toString(16) on a natural number: at least one digit,
      at most two exactly below 256, read back by parseInt as `n`. */
  function NatToHex(n: nat): (r: string)
    ensures 1 <= |r| && (|r| <= 2 <==> n < 256)
    ensures AllHexDigits(r) && ParseHex(r) == n
  {
    if n < 16 then
      assert [LowerDigit(n)][..0] == [];
      [LowerDigit(n)]
    else
      var r := NatToHex(n / 16) + [LowerDigit(n % 16)];
      assert r[..|r| - 1] == NatToHex(n / 16);
      r
  }

  /** Number.prototype.toString(16) on an integer. */
  function ToString16(n: int): string {
    if n < 0 then "-" + NatToHex(-n) else NatToHex(n)
  }

  /** String.prototype.padStart(2, "0"). */
  function PadStart2(s: string): (r: string)
    ensures |r| == if |s| < 2 then 2 else |s|
  {
    if |s| == 0 then "00" else if |s| == 1 then "0" + s else s
  }

  /** padStart keeps its input at the end and adds only '0's before it. */
  lemma PadStart2Contents(s: string)
    ensures var r := PadStart2(s);
      r[|r| - |s|..] == s && forall i :: 0 <= i < |r| - |s| ==> r[i] == '0'
  {
  }

  /** rgbToHex (app.js:69-72), on integer channels. */
  function RgbToHex(r: int, g: int, b: int): string {
    UpperAscii("#" + PadStart2(ToString16(r)) + PadStart2(ToString16(g)) + PadStart2(ToString16(b)))
  }

  /** A byte is written as exactly two zero-padded lower-case digits. */
  lemma ByteToHex(n: Byte)
    ensures PadStart2(ToString16(n)) == [LowerDigit(n / 16), LowerDigit(n % 16)]
  {
    if n >= 16 {
      assert NatToHex(n / 16) == [LowerDigit(n / 16)];
    }
  }

  /** An upper-cased byte segment is its two upper-case digits. */
  lemma UpperSegment(n: Byte)
    ensures UpperAscii(PadStart2(ToString16(n))) == [UpperDigit(n / 16), UpperDigit(n % 16)]
  {
    ByteToHex(n);
  }

  /** For channels in 0..255 rgbToHex writes '#' and six upper-case
      zero-padded hex digits, two per channel. */
  lemma RgbToHexFormat(r: Byte, g: Byte, b: Byte)
    ensures RgbToHex(r, g, b) ==
      ['#', UpperDigit(r / 16), UpperDigit(r % 16), UpperDigit(g / 16), UpperDigit(g % 16),
       UpperDigit(b / 16), UpperDigit(b % 16)]
    ensures IsCanonical(RgbToHex(r, g, b))
  {
    RgbToHexDigits(r, g, b);
  }

  /** The seven characters rgbToHex writes for byte channels. */
  lemma RgbToHexDigits(r: Byte, g: Byte, b: Byte)
    ensures RgbToHex(r, g, b) ==
      ['#', UpperDigit(r / 16), UpperDigit(r % 16), UpperDigit(g / 16), UpperDigit(g % 16),
       UpperDigit(b / 16), UpperDigit(b % 16)]
  {
    var sr, sg, sb := PadStart2(ToString16(r)), PadStart2(ToString16(g)), PadStart2(ToString16(b));
    UpperAsciiConcat("#" + sr + sg, sb);
    UpperAsciiConcat("#" + sr, sg);
    UpperAsciiConcat("#", sr);
    UpperSegment(r);
    UpperSegment(g);
    UpperSegment(b);
    assert UpperAscii("#") == "#";
  }

  /** A padded segment has at least two characters; it has exactly two and
      does not start with '-' exactly when the number is a byte. */
  lemma SegmentShape(n: int)
    ensures var seg := PadStart2(ToString16(n));
      |seg| >= 2 && (0 <= n < 256 <==> |seg| == 2 && seg[0] != '-')
  {
    if 0 <= n < 256 {
      ByteToHex(n);
    }
  }

  /** rgbToHex produces a canonical colour exactly when every channel lies
      in 0..255. */
  lemma RgbToHexCanonicalIffBytes(r: int, g: int, b: int)
    ensures IsCanonical(RgbToHex(r, g, b)) <==> 0 <= r < 256 && 0 <= g < 256 && 0 <= b < 256
  {
    if 0 <= r < 256 && 0 <= g < 256 && 0 <= b < 256 {
      RgbToHexFormat(r, g, b);
    } else {
      var sr, sg, sb := PadStart2(ToString16(r)), PadStart2(ToString16(g)), PadStart2(ToString16(b));
      SegmentShape(r);
      SegmentShape(g);
      SegmentShape(b);
      var raw := "#" + sr + sg + sb;
      var h := RgbToHex(r, g, b);
      assert h == UpperAscii(raw);
      if |sr| == 2 && |sg| == 2 && |sb| == 2 {
        assert raw[1] == '-' || raw[3] == '-' || raw[5] == '-';
        assert h[1] == '-' || h[3] == '-' || h[5] == '-';
      } else {
        assert |h| > 7;
      }
    }
  }

  /** hexToRgb reads a canonical colour's own digits. */
  lemma CanonicalParses(h: string)
    requires IsCanonical(h)
    ensures HexToRgb(h) == Some(Channels(h))
  {
    CanonicalIsFixed(h);
  }

  /** Round trip from channels: for bytes, hexToRgb(rgbToHex(r, g, b)) gives
      back r, g and b. */
  lemma RgbRoundTrip(r: Byte, g: Byte, b: Byte)
    ensures HexToRgb(RgbToHex(r, g, b)) == Some(Rgb(r, g, b))
  {
    var h := RgbToHex(r, g, b);
    RgbToHexFormat(r, g, b);
    CanonicalParses(h);
    assert PairValue(h[1], h[2]) == r;
    assert PairValue(h[3], h[4]) == g;
    assert PairValue(h[5], h[6]) == b;
  }

  /** Formatting the channels read from a canonical colour gives it back. */
  lemma CanonicalRoundTrip(h: string)
    requires IsCanonical(h)
    ensures var c := Channels(h); RgbToHex(c.r, c.g, c.b) == h
  {
    var c := Channels(h);
    PairRoundTrip(h[1], h[2]);
    PairRoundTrip(h[3], h[4]);
    PairRoundTrip(h[5], h[6]);
    RgbToHexFormat(c.r, c.g, c.b);
    assert h == ['#', h[1], h[2], h[3], h[4], h[5], h[6]];
  }

  /** An upper-case digit pair is written back as itself. */
  lemma PairRoundTrip(hi: char, lo: char)
    requires IsUpperHexDigit(hi) && IsUpperHexDigit(lo)
    ensures UpperDigit(PairValue(hi, lo) / 16) == hi && UpperDigit(PairValue(hi, lo) % 16) == lo
  {
    PairDigits(hi, lo);
    UpperDigitOfValue(hi);
    UpperDigitOfValue(lo);
  }

  /** Round trip from text: formatting the channels of an accepted colour
      gives its sanitised form. */
  lemma HexRoundTrip(hex: string)
    requires HexToRgb(hex).Some?
    ensures var c := HexToRgb(hex).value; RgbToHex(c.r, c.g, c.b) == SanitizeHex(hex).value
  {
    var h := SanitizeHex(hex).value;
    assert HexToRgb(hex).value == Channels(h);
    CanonicalRoundTrip(h);
  }

  /** The two digits of a pair are recovered by division and remainder. */
  lemma PairDigits(hi: char, lo: char)
    requires IsHexDigit(hi) && IsHexDigit(lo)
    ensures (16 * DigitValue(hi) + DigitValue(lo)) / 16 == DigitValue(hi)
    ensures (16 * DigitValue(hi) + DigitValue(lo)) % 16 == DigitValue(lo)
  {
  }
}
