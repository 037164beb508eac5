/**
 * The colour tables of the canvas renderer (js/canvas.ts:13-17, 25-121):
 * the hi-res artifact colours and the sixteen lo-res/double-hi-res colours,
 * each in four palettes. Palette 2 and 3 are grey-scale; palette 0 is the
 * default and any other non-zero palette number picks the third table.
 */
module ColorTables {
  import opened Screen

  datatype HiresColors = HiresColors(orange: Color, green: Color, blue: Color, violet: Color,
                                     white: Color, black: Color)

  function Gray(v: byte): Color {
    Color(v, v, v)
  }

  predicate IsGray(c: Color) {
    c.r == c.g == c.b
  }

  /** `setColors`: the six artifact colours of a palette. White and black are
      the same in every palette. */
  function SetColors(palette: int): (c: HiresColors)
    ensures c.white == White && c.black == Black
    ensures (palette == 2 || palette == 3) ==>
      IsGray(c.orange) && IsGray(c.green) && IsGray(c.blue) && IsGray(c.violet)
  {
    if palette == 2 then
      HiresColors(Gray(0x90), Gray(0xa0), Gray(0xc0), Gray(0xb0), White, Black)
    else if palette == 3 then
      HiresColors(Gray(0x94), Gray(0x5c), Gray(0x80), Gray(0xac), White, Black)
    else if palette != 0 then
      HiresColors(Color(0xff, 0x65, 0x00), Color(0x00, 0xff, 0x00), Color(0x09, 0x2a, 0xff),
                  Color(0xc9, 0x39, 0xc7), White, Black)
    else
      HiresColors(Color(0xff, 0x6a, 0x3c), Color(0x14, 0xf5, 0x3c), Color(0x14, 0xcf, 0xfd),
                  Color(0xff, 0x44, 0xfd), White, Black)
  }

  /** `get16Colors`: the lo-res and double-hi-res colour table of a palette,
      indexed by a 4-bit colour number. */
  function Get16Colors(palette: int): (t: seq<Color>)
    ensures |t| == 16 && t[0] == Black && t[15] == White
    ensures (palette == 2 || palette == 3) ==> forall i :: 0 <= i < 16 ==> IsGray(t[i])
  {
    if palette == 2 then
      [Gray(0x00), Gray(0x80), Gray(0x78), Gray(0xa8), Gray(0x88), Gray(0x99), Gray(0xb8), Gray(0xd4),
       Gray(0x66), Gray(0xa0), Gray(0x99), Gray(0xcc), Gray(0xbb), Gray(0xee), Gray(0xdd), Gray(0xff)]
    else if palette == 3 then
      [Gray(0x00), Gray(0x80), Gray(0x85), Gray(0xa1), Gray(0x51), Gray(0x9c), Gray(0x88), Gray(0xe1),
       Gray(0x3a), Gray(0x9d), Gray(0x9c), Gray(0xcf), Gray(0x84), Gray(0xb5), Gray(0xb8), Gray(0xff)]
    else if palette != 0 then
      [Black, Color(0xdd, 0x00, 0x33), Color(0x00, 0x00, 0x99), Color(0xdd, 0x00, 0xdd),
       Color(0x00, 0x77, 0x00), Color(0x66, 0x66, 0x66), Color(0x22, 0x22, 0xff), Color(0x66, 0xaa, 0xff),
       Color(0x88, 0x55, 0x22), Color(0xff, 0x66, 0x00), Color(0x99, 0x99, 0x99), Color(0xff, 0x99, 0x88),
       Color(0x00, 0xdd, 0x00), Color(0xff, 0xff, 0x00), Color(0x00, 0xff, 0x99), White]
    else
      [Black, Color(0xe3, 0x1e, 0x60), Color(0x60, 0x4e, 0xbd), Color(0xff, 0x44, 0xfd),
       Color(0x00, 0xa3, 0x60), Color(0x9c, 0x9c, 0x9c), Color(0x14, 0xcf, 0xfd), Color(0xd0, 0xc3, 0xff),
       Color(0x60, 0x72, 0x03), Color(0xff, 0x6a, 0x3c), Color(0x9c, 0x9c, 0x9c), Color(0xff, 0xa0, 0xd0),
       Color(0x14, 0xf5, 0x3c), Color(0xd0, 0xdd, 0x8d), Color(0x72, 0xff, 0xd0), White]
  }

  /** Colour number `i` of a palette; an index outside 0..15 (the source's
      `undefined`) never arises from a 4-bit field. */
  function Color16(palette: int, i: int): Color
    requires 0 <= i < 16
  {
    Get16Colors(palette)[i]
  }

  /** `r4`: maps a double-hi-res 4-bit pattern (bit order as stored in memory)
      to the lo-res colour number of the same colour. */
  const R4: seq<int> := [0, 2, 4, 6, 8, 5, 12, 14, 1, 3, 10, 7, 9, 11, 13, 15]

  /** `r4` is a permutation of the sixteen colour numbers that keeps black
      and white: each colour is reached by exactly one pattern. */
  lemma R4Permutation()
    ensures |R4| == 16
    ensures forall i :: 0 <= i < 16 ==> 0 <= R4[i] < 16
    ensures forall i, j :: 0 <= i < j < 16 ==> R4[i] != R4[j]
    ensures R4[0] == 0 && R4[15] == 15
  {
  }

  /** `dim` at its default ratio 0.75: `(c * 0.75) & 255` is exact in binary
      floating point, so each channel becomes floor(3c / 4). */
  function Dim(c: Color): (d: Color)
    ensures 4 * (d.r as int) <= 3 * (c.r as int) < 4 * (d.r as int) + 4
    ensures 4 * (d.g as int) <= 3 * (c.g as int) < 4 * (d.g as int) + 4
    ensures 4 * (d.b as int) <= 3 * (c.b as int) < 4 * (d.b as int) + 4
  {
    Color((3 * c.r as int / 4) as byte, (3 * c.g as int / 4) as byte, (3 * c.b as int / 4) as byte)
  }

  /** Dimming never brightens a channel and keeps black black. */
  lemma DimDarkens(c: Color)
    ensures Dim(c).r <= c.r && Dim(c).g <= c.g && Dim(c).b <= c.b
    ensures Dim(Black) == Black
  {
  }
}
