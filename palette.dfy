/** The xterm-style colour palette: the 16 fixed base colours and the mapping
    from a 256-colour index to an RGB triple (scripts/make_screenshots.py). */
module Palette {

  /** An RGB triple. Channels are never negative anywhere in the system:
      palette entries, the index formulas and decimal SGR parameters all
      produce natural numbers, but truecolor SGR parameters may exceed 255. */
  datatype Rgb = Rgb(r: nat, g: nat, b: nat)

  /** Every channel fits in one byte. */
  predicate InByteRange(c: Rgb) {
    c.r <= 255 && c.g <= 255 && c.b <= 255
  }

  /** The 16 base colours: normal and bright black, red, green, yellow, blue,
      magenta, cyan and white. */
  const BaseColors: seq<Rgb> := [
    Rgb(0, 0, 0),
    Rgb(205, 49, 49),
    Rgb(13, 188, 121),
    Rgb(229, 229, 16),
    Rgb(36, 114, 200),
    Rgb(188, 63, 188),
    Rgb(17, 168, 205),
    Rgb(229, 229, 229),
    Rgb(102, 102, 102),
    Rgb(241, 76, 76),
    Rgb(35, 209, 139),
    Rgb(245, 245, 67),
    Rgb(59, 142, 234),
    Rgb(214, 112, 214),
    Rgb(41, 184, 219),
    Rgb(255, 255, 255)
  ]

  /** The default foreground and background of a cell. */
  const DefaultFg := Rgb(230, 230, 230)
  const DefaultBg := Rgb(10, 12, 16)

  /** Intensity of one colour-cube level: 0 for level 0, else 55 + 40 * level. */
  function Level(x: nat): (v: nat)
    ensures x < 6 ==> IsCubeIntensity(v)
  {
    if x != 0 then 55 + x * 40 else 0
  }

  /** The six intensities a colour-cube channel can take. */
  predicate IsCubeIntensity(v: nat) {
    v == 0 || v == 95 || v == 135 || v == 175 || v == 215 || v == 255
  }

  /** Inverse of Level on the six cube intensities. */
  function LevelOf(v: nat): (x: nat)
    requires IsCubeIntensity(v)
    ensures x < 6 && Level(x) == v
  {
    if v == 0 then 0 else (v - 55) / 40
  }

  /** Index of a colour-cube entry from its three levels. */
  function CubeIndex(r: nat, g: nat, b: nat): nat {
    16 + 36 * r + 6 * g + b
  }

  /** The colour of an xterm 256-colour index. Negative indices give base
      colour 7; indices at or past 232 give a grey ramp clamped at 255. */
  function ColorFromIndex(idx: int): (c: Rgb)
    ensures InByteRange(c)
  {
    if idx < 0 then BaseColors[7]
    else if idx < 16 then BaseColors[idx]
    else if idx < 232 then
      var v := idx - 16;
      Rgb(Level((v / 36) % 6), Level((v / 6) % 6), Level(v % 6))
    else
      var v := 8 + (idx - 232) * 10;
      var w := if v < 0 then 0 else if v > 255 then 255 else v;
      Rgb(w, w, w)
  }

  /** Every base colour fits in one byte per channel. */
  lemma BaseColorsInRange(k: nat)
    requires k < 16
    ensures InByteRange(BaseColors[k])
  {
  }

  /** The cube levels are the six distinct intensities, so a level can be
      read back from the intensity it produces. */
  lemma LevelInjective(x: nat, y: nat)
    requires x < 6 && y < 6 && Level(x) == Level(y)
    ensures x == y
  {
  }

  /** Division by six of a number written in base six. */
  lemma SplitSix(q: nat, m: nat)
    requires m < 6
    ensures (6 * q + m) / 6 == q && (6 * q + m) % 6 == m
  {
  }

  /** Division by 36 of a number written in base 36. */
  lemma SplitThirtySix(q: nat, m: nat)
    requires m < 36
    ensures (36 * q + m) / 36 == q && (36 * q + m) % 36 == m
  {
  }

  /** Building a cube index from three levels and mapping it back gives the
      three level intensities. */
  lemma {:induction false} CubeRoundTrip(r: nat, g: nat, b: nat)
    requires r < 6 && g < 6 && b < 6
    ensures 16 <= CubeIndex(r, g, b) < 232
    ensures ColorFromIndex(CubeIndex(r, g, b)) == Rgb(Level(r), Level(g), Level(b))
  {
    var v := CubeIndex(r, g, b) - 16;
    SplitThirtySix(r, 6 * g + b);
    SplitSix(6 * r + g, b);
    SplitSix(r, g);
    assert v / 36 == r && r % 6 == r;
    assert v / 6 == 6 * r + g && v % 6 == b;
  }

  /** Conversely, every index of the cube band is a cube colour, whose
      channel levels rebuild the index. */
  lemma {:induction false} CubeDecode(idx: int)
    requires 16 <= idx < 232
    ensures var c := ColorFromIndex(idx);
      IsCubeIntensity(c.r) && IsCubeIntensity(c.g) && IsCubeIntensity(c.b) &&
      CubeIndex(LevelOf(c.r), LevelOf(c.g), LevelOf(c.b)) == idx
  {
    var v := idx - 16;
    var q, b := v / 6, v % 6;
    var r, g := q / 6, q % 6;
    assert v == 6 * q + b && q == 6 * r + g && r < 6;
    assert idx == CubeIndex(r, g, b);
    CubeRoundTrip(r, g, b);
    var c := ColorFromIndex(idx);
    LevelInjective(LevelOf(c.r), r);
    LevelInjective(LevelOf(c.g), g);
    LevelInjective(LevelOf(c.b), b);
  }

  /** The grey ramp: indices 232..255 give equal channels 8, 18, ..., 238,
      each step ten brighter than the one before. */
  lemma GreyRamp(idx: int)
    requires 232 <= idx <= 255
    ensures var c := ColorFromIndex(idx);
      c.r == c.g == c.b && c.r == 8 + 10 * (idx - 232) && 8 <= c.r <= 238
    ensures idx < 255 ==> ColorFromIndex(idx + 1).r == ColorFromIndex(idx).r + 10
  {
  }

  /** Every index from 232 on is a grey of 8 + 10 * (idx - 232), clamped at
      255: index 256 (reachable as `38;5;256`) gives 248, and from 257 on
      the ramp is white. */
  lemma GreyClamp(idx: int)
    requires idx >= 232
    ensures var g := 8 + 10 * (idx - 232);
      ColorFromIndex(idx) == if g <= 255 then Rgb(g, g, g) else Rgb(255, 255, 255)
    ensures idx == 256 ==> ColorFromIndex(idx) == Rgb(248, 248, 248)
  {
  }

  /** Past the end of the 256-colour range the ramp saturates at white. */
  lemma GreySaturates(idx: int)
    requires idx >= 257
    ensures ColorFromIndex(idx) == Rgb(255, 255, 255)
  {
  }

  /** The fixed points of the palette: base colours, cube corners and ramp ends. */
  lemma PaletteLandmarks()
    ensures forall k :: 0 <= k < 16 ==> ColorFromIndex(k) == BaseColors[k]
    ensures forall k :: k < 0 ==> ColorFromIndex(k) == BaseColors[7]
    ensures ColorFromIndex(16) == Rgb(0, 0, 0)
    ensures ColorFromIndex(231) == Rgb(255, 255, 255)
    ensures ColorFromIndex(232) == Rgb(8, 8, 8)
    ensures ColorFromIndex(255) == Rgb(238, 238, 238)
  {
  }
}
