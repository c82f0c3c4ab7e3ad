/** `rgb_hex`: a colour as `#rrggbb`, each channel in Python's `{:02x}`
    format (lower-case hexadecimal, zero-padded to at least two digits). */
module HexColor {
  import opened Palette

  function HexDigit(d: nat): (c: char)
    requires d < 16
  {
    if d < 10 then ('0' as int + d) as char else ('a' as int + d - 10) as char
  }

  predicate IsHexDigit(c: char) {
    '0' <= c <= '9' || 'a' <= c <= 'f'
  }

  function HexDigitValue(c: char): (d: nat)
    requires IsHexDigit(c)
    ensures d < 16 && HexDigit(d) == c
  {
    if c <= '9' then c as int - '0' as int else c as int - 'a' as int + 10
  }

  /** Value of a string of hexadecimal digits, most significant first. */
  function HexValue(s: string): nat
    requires forall i :: 0 <= i < |s| ==> IsHexDigit(s[i])
  {
    if s == [] then 0 else 16 * HexValue(s[..|s| - 1]) + HexDigitValue(s[|s| - 1])
  }

  /** `format(n, "x")`: hexadecimal without leading zeros ("0" for zero),
      whose digits read back as n. */
  function Hex(n: nat): (s: string)
    ensures 1 <= |s|
    ensures forall i :: 0 <= i < |s| ==> IsHexDigit(s[i])
    ensures HexValue(s) == n
    ensures |s| == 1 || s[0] != '0'
  {
    if n < 16 then
      var s := [HexDigit(n)];
      assert s[..0] == [];
      s
    else
      var s := Hex(n / 16) + [HexDigit(n % 16)];
      assert s[..|s| - 1] == Hex(n / 16);
      s
  }

  /** `format(n, "02x")`: Hex padded on the left with '0' to width two. */
  function Hex2(n: nat): (s: string)
    ensures 2 <= |s|
    ensures forall i :: 0 <= i < |s| ==> IsHexDigit(s[i])
    ensures HexValue(s) == n
    ensures |s| == 2 || s[0] != '0'
  {
    var h := Hex(n);
    if |h| < 2 then
      var s := ['0'] + h;
      assert s[..1] == ['0'] && ['0'][..0] == [] && h[..0] == [];
      s
    else h
  }

  function RgbHex(c: Rgb): (s: string)
    ensures |s| >= 7 && s[0] == '#'
    ensures forall i :: 1 <= i < |s| ==> IsHexDigit(s[i])
  {
    "#" + Hex2(c.r) + Hex2(c.g) + Hex2(c.b)
  }

  /** Reads a `#rrggbb` string back into a colour. */
  function ParseRgbHex(s: string): Rgb
    requires |s| == 7 && forall i :: 1 <= i < 7 ==> IsHexDigit(s[i])
  {
    Rgb(HexValue(s[1..3]), HexValue(s[3..5]), HexValue(s[5..7]))
  }

  /** A channel below 256 is written as exactly two digits that read back as it. */
  lemma {:induction false} Hex2Byte(n: nat)
    requires n <= 255
    ensures |Hex2(n)| == 2 && HexValue(Hex2(n)) == n
  {
    if n >= 16 {
      assert |Hex(n / 16)| == 1;
    }
  }

  /** For a colour whose channels fit in a byte, `rgb_hex` gives seven
      characters that parse back to the same colour. */
  lemma {:induction false} RgbHexRoundTrip(c: Rgb)
    requires InByteRange(c)
    ensures |RgbHex(c)| == 7
    ensures ParseRgbHex(RgbHex(c)) == c
  {
    Hex2Byte(c.r);
    Hex2Byte(c.g);
    Hex2Byte(c.b);
    var s := RgbHex(c);
    assert s[1..3] == Hex2(c.r);
    assert s[3..5] == Hex2(c.g);
    assert s[5..7] == Hex2(c.b);
  }

  /** Hex has at least three digits for a value of 256 or more. */
  lemma {:induction false} HexWide(n: nat)
    requires n >= 256
    ensures |Hex(n)| >= 3
  {
    assert n / 16 >= 16;
    assert |Hex(n / 16)| >= 2;
  }

  /** A truecolor channel above 255 is not clamped: the string is then
      longer than `#rrggbb`. */
  lemma {:induction false} RgbHexWideChannel(c: Rgb)
    requires !InByteRange(c)
    ensures |RgbHex(c)| > 7
  {
    if c.r > 255 { HexWide(c.r); }
    else if c.g > 255 { HexWide(c.g); }
    else { HexWide(c.b); }
  }
}
