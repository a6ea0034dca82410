/**
 * Colour strings of the mesh editor: `hexToRgb` parses `#rrggbb` (the `#` is
 * optional, digits in either case) into three byte channels and falls back to
 * black on anything else. `FormatHex` is the inverse direction, the form the
 * browser's colour input produces.
 */
module Colour {
  import opened Wrappers

  /** One 8-bit colour channel. */
  type Byte = x: int | 0 <= x < 256

  datatype Rgb = Rgb(r: Byte, g: Byte, b: Byte)

  /** The fallback `[0, 0, 0]` of `hexToRgb`. */
  const Black: Rgb := Rgb(0, 0, 0)

  /** `[a-f\d]` under the case-insensitive flag: ASCII digits and letters a-f, A-F. */
  predicate IsHexDigit(c: char) {
    '0' <= c <= '9' || 'a' <= c <= 'f' || 'A' <= c <= 'F'
  }

  predicate AllHexDigits(s: string) {
    forall i :: 0 <= i < |s| ==> IsHexDigit(s[i])
  }

  /**
   * The language of `/^#?([a-f\d]{2})([a-f\d]{2})([a-f\d]{2})$/i`:
   * six hex digits, optionally preceded by one `#`.
   */
  predicate IsHexColor(s: string) {
    || (|s| == 6 && AllHexDigits(s))
    || (|s| == 7 && s[0] == '#' && AllHexDigits(s[1..]))
  }

  /** The six digits of a colour string, without its optional `#`. */
  function ColourDigits(s: string): (d: string)
    requires IsHexColor(s)
    ensures |d| == 6 && AllHexDigits(d)
  {
    if |s| == 7 then s[1..] else s
  }

  function DigitValue(c: char): (v: nat)
    requires IsHexDigit(c)
    ensures v < 16
  {
    if '0' <= c <= '9' then c as int - '0' as int
    else if 'a' <= c <= 'f' then c as int - 'a' as int + 10
    else c as int - 'A' as int + 10
  }

  /** The lower-case digit `toString(16)` writes for a value below 16. */
  function DigitChar(v: nat): (c: char)
    requires v < 16
    ensures IsHexDigit(c) && DigitValue(c) == v
    ensures !('A' <= c <= 'F')
  {
    if v < 10 then ('0' as int + v) as char else ('a' as int + v - 10) as char
  }

  /** ASCII lower-casing of one character; every other character is kept. */
  function LowerChar(c: char): char {
    if 'A' <= c <= 'Z' then (c as int - 'A' as int + 'a' as int) as char else c
  }

  function LowerAscii(s: string): (t: string)
    ensures |t| == |s|
    ensures forall i :: 0 <= i < |s| ==> t[i] == LowerChar(s[i])
  {
    seq(|s|, i requires 0 <= i < |s| => LowerChar(s[i]))
  }

  /** Writing a digit back after reading it gives the digit in lower case. */
  lemma DigitCharOfValue(c: char)
    requires IsHexDigit(c)
    ensures DigitChar(DigitValue(c)) == LowerChar(c)
  {
  }

  /** `parseInt` of a two-character hex string. */
  function PairValue(hi: char, lo: char): (v: Byte)
    requires IsHexDigit(hi) && IsHexDigit(lo)
  {
    16 * DigitValue(hi) + DigitValue(lo)
  }

  /** The byte held by the two characters of `s` starting at `i`, if both are hex digits. */
  function ReadByte(s: string, i: nat): (r: Option<Byte>)
    requires i + 2 <= |s|
    ensures r.Some? <==> IsHexDigit(s[i]) && IsHexDigit(s[i + 1])
  {
    if IsHexDigit(s[i]) && IsHexDigit(s[i + 1]) then Some(PairValue(s[i], s[i + 1])) else None
  }

  /**
   * The matching step of `hexToRgb`: skip one leading `#` if present, then
   * read exactly three two-digit groups that must end the string.
   */
  function ParseHexColor(s: string): (r: Option<Rgb>)
    ensures r.Some? <==> IsHexColor(s)
    ensures r.Some? ==>
      var d := ColourDigits(s);
      r.value == Rgb(PairValue(d[0], d[1]), PairValue(d[2], d[3]), PairValue(d[4], d[5]))
  {
    var start := if |s| > 0 && s[0] == '#' then 1 else 0;
    if |s| != start + 6 then None
    else
      var r, g, b := ReadByte(s, start), ReadByte(s, start + 2), ReadByte(s, start + 4);
      DigitsAt(s, start);
      if r.Some? && g.Some? && b.Some? then Some(Rgb(r.value, g.value, b.value)) else None
  }

  /** Six characters from `start` are hex digits exactly when each of the three pairs is. */
  lemma DigitsAt(s: string, start: nat)
    requires start + 6 == |s|
    ensures AllHexDigits(s[start..]) <==>
      forall k :: start <= k < |s| ==> IsHexDigit(s[k])
  {
    if AllHexDigits(s[start..]) {
      forall k | start <= k < |s| ensures IsHexDigit(s[k]) {
        assert s[k] == s[start..][k - start];
      }
    }
  }

  /**
   * `hexToRgb`: the three parsed bytes exactly when the string is a colour
   * string, black for every other string.
   */
  function HexToRgb(hex: string): (c: Rgb)
    ensures IsHexColor(hex) ==>
      var d := ColourDigits(hex);
      c == Rgb(PairValue(d[0], d[1]), PairValue(d[2], d[3]), PairValue(d[4], d[5]))
    ensures !IsHexColor(hex) ==> c == Black
  {
    ParseHexColor(hex).GetOr(Black)
  }

  /** Two lower-case hex digits for one byte. */
  function ByteHex(v: Byte): (s: string)
    ensures |s| == 2 && AllHexDigits(s)
    ensures PairValue(s[0], s[1]) == v
  {
    [DigitChar(v / 16), DigitChar(v % 16)]
  }

  /** `#rrggbb` in lower case, the value a colour input reports. */
  function FormatHex(c: Rgb): (s: string)
    ensures |s| == 7 && s[0] == '#'
  {
    "#" + ByteHex(c.r) + ByteHex(c.g) + ByteHex(c.b)
  }

  /** Formatting three bytes and parsing the result gives back the same bytes. */
  lemma FormatThenParse(c: Rgb)
    ensures IsHexColor(FormatHex(c))
    ensures HexToRgb(FormatHex(c)) == c
  {
    var s := FormatHex(c);
    assert s[1..] == ByteHex(c.r) + ByteHex(c.g) + ByteHex(c.b);
    assert AllHexDigits(s[1..]);
  }

  /** Reading two digits and writing the byte back gives the same digits in lower case. */
  lemma PairThenByteHex(hi: char, lo: char)
    requires IsHexDigit(hi) && IsHexDigit(lo)
    ensures ByteHex(PairValue(hi, lo)) == [LowerChar(hi), LowerChar(lo)]
  {
    var v := PairValue(hi, lo);
    assert v / 16 == DigitValue(hi) && v % 16 == DigitValue(lo);
    DigitCharOfValue(hi);
    DigitCharOfValue(lo);
  }

  /**
   * Parsing a colour string and formatting the bytes gives the same string,
   * lower-cased and with the `#` restored.
   */
  lemma ParseThenFormat(s: string)
    requires IsHexColor(s)
    ensures FormatHex(HexToRgb(s)) == "#" + LowerAscii(ColourDigits(s))
  {
    var d := ColourDigits(s);
    PairThenByteHex(d[0], d[1]);
    PairThenByteHex(d[2], d[3]);
    PairThenByteHex(d[4], d[5]);
    var t := FormatHex(HexToRgb(s));
    var u := "#" + LowerAscii(d);
    assert t == "#" + [LowerChar(d[0]), LowerChar(d[1])] + [LowerChar(d[2]), LowerChar(d[3])]
                    + [LowerChar(d[4]), LowerChar(d[5])];
    forall k | 0 <= k < 7 ensures t[k] == u[k] {
    }
  }

  /** The colour of every point the editor adds is white. */
  lemma WhiteIsFullIntensity()
    ensures HexToRgb("#ffffff") == Rgb(255, 255, 255)
  {
  }
}
