/**
 * How one byte of a hi-res page is decoded into pixels by the two back ends
 * (js/canvas.ts:644-876, js/gl.ts:445-539). A hi-res window is 0x2000
 * bytes: offset `base` holds sub-row `base >> 10` of the text row of
 * `base & 0x3ff`, so it draws on line `HiresLine(base)` of the image.
 */
module HiresDecode {
  import opened Screen
  import opened Glyphs
  import opened ColorTables

  /** `rowa < 24 && col < 40` for a hi-res window offset. */
  predicate HiresVisible(base: int)
    requires 0 <= base
  {
    Visible(base % 0x400)
  }

  /** A byte's hi-res line and column lie on the screen. */
  lemma HiresCell(base: int)
    requires 0 <= base < 0x2000 && HiresVisible(base)
    ensures 0 <= HiresLine(base) < H && 0 <= ColOf(base) < 40
    ensures ColOf(base) == ColOf(base % 0x400)
  {
    ColOfLowByte(base);
    var q, e, t, c := BaseParts(base % 0x400);
  }

  /* ---------------------------------------------------------------------
   * Dirty boxes.
   * ------------------------------------------------------------------- */

  /** The canvas page's box, `y = (rowa << 4) | (rowb << 1)`: its lines
      are counted on a 384-line scale. */
  function Dirty2D(d: Region, base: int): Region
    requires 0 <= base
  {
    var y, x := 2 * HiresLine(base), ColOf(base) * 14;
    Widen(d, y, y + 1, x - 2, x + 16)
  }

  /** The GL page's box, `y = (rowa << 3) | rowb`. */
  function DirtyGL(d: Region, base: int): Region
    requires 0 <= base
  {
    var y, x := HiresLine(base), ColOf(base) * 14;
    Widen(d, y, y + 1, x - 2, x + 12)
  }

  /* ---------------------------------------------------------------------
   * Double hi-res: four bytes, main and auxiliary in turn, give seven
   * 4-bit colour codes (js/canvas.ts:697-745).
   * ------------------------------------------------------------------- */

  /** `c[0..8]`: code 0 is the last code of the quad to the left (when there
      is one) and code 8 the first code of the quad to the right. */
  function DhrCodes(bz: int, b0: int, b1: int, b2: int, b3: int, b4: int, col: int): (c: seq<int>)
    requires 0 <= bz < 256 && 0 <= b0 < 256 && 0 <= b1 < 256
    requires 0 <= b2 < 256 && 0 <= b3 < 256 && 0 <= b4 < 256
    ensures |c| == 9 && forall i :: 0 <= i < 9 ==> 0 <= c[i] < 16
    ensures col <= 0 ==> c[0] == 0
    ensures col >= 39 ==> c[8] == 0
  {
    assert Pow2(1) == 2 && Pow2(2) == 4 && Pow2(3) == 8 && Pow2(4) == 16;
    [if col > 0 then Field(bz, 3, 4) else 0,
     Field(b0, 0, 4),
     Field(b0, 4, 3) + 8 * Field(b1, 0, 1),
     Field(b1, 1, 4),
     Field(b1, 5, 2) + 4 * Field(b2, 0, 2),
     Field(b2, 2, 4),
     Field(b2, 6, 1) + 2 * Field(b3, 0, 3),
     Field(b3, 3, 4),
     if col < 39 then Field(b4, 0, 4) else 0]
  }

  /** The w-bit field of x from bit s: `(x >> s) & (2^w - 1)`. */
  function Field(x: int, s: nat, w: nat): (v: int)
    requires 0 <= x
    ensures 0 <= v < Pow2(w)
  {
    (x / Pow2(s)) % Pow2(w)
  }

  /** `hb[0..8]`: the high bit of the byte each code's last bit comes from. */
  function DhrHigh(bz: int, b0: int, b1: int, b2: int, b3: int, b4: int, col: int): (hb: seq<bool>)
    ensures |hb| == 9
  {
    [col > 0 && bz >= 128, b0 >= 128, b0 >= 128, b1 >= 128, b2 >= 128,
     b2 >= 128, b3 >= 128, b3 >= 128, col < 39 && b4 >= 128]
  }

  /** The reference reading of a quad: the 28 data bits of b0, b1, b2, b3
      (bits 0-6 of each, the high bit skipped) as one stream. */
  predicate StreamBit(b0: int, b1: int, b2: int, b3: int, t: int)
    requires 0 <= t < 28
  {
    var b := if t < 7 then b0 else if t < 14 then b1 else if t < 21 then b2 else b3;
    Bit(b, t % 7)
  }

  /** Code i (1..7) is bits 4(i-1) .. 4(i-1)+3 of the stream, so the
      extraction drops no bit and reads none twice; the border codes are
      bits 3-6 of the byte to the left and bits 0-3 of the byte to the right. */
  lemma DhrCodesFollowStream(bz: int, b0: int, b1: int, b2: int, b3: int, b4: int,
                              col: int, i: int, j: int)
    requires 0 <= bz < 256 && 0 <= b0 < 256 && 0 <= b1 < 256
    requires 0 <= b2 < 256 && 0 <= b3 < 256 && 0 <= b4 < 256
    requires 0 <= i < 9 && 0 <= j < 4
    ensures var c := DhrCodes(bz, b0, b1, b2, b3, b4, col);
      (1 <= i <= 7 ==> (Bit(c[i], j) <==> StreamBit(b0, b1, b2, b3, 4 * (i - 1) + j))) &&
      (i == 0 && col > 0 ==> (Bit(c[0], j) <==> Bit(bz, 3 + j))) &&
      (i == 8 && col < 39 ==> (Bit(c[8], j) <==> Bit(b4, j)))
  {
    if 1 <= i <= 7 {
      QuadCodeAt(bz, b0, b1, b2, b3, b4, col, i);
      CodeFollowsStream(b0, b1, b2, b3, i, j);
    } else if i == 0 {
      FieldBit(bz, 3, 4, j);
    } else {
      FieldBit(b4, 0, 4, j);
    }
  }

  /** Code i (1..7) of a quad, as `DhrCodes` extracts it. */
  function QuadCode(b0: int, b1: int, b2: int, b3: int, i: int): int
    requires 0 <= b0 && 0 <= b1 && 0 <= b2 && 0 <= b3
  {
    match i
    case 1 => Field(b0, 0, 4)
    case 2 => Field(b0, 4, 3) + 8 * Field(b1, 0, 1)
    case 3 => Field(b1, 1, 4)
    case 4 => Field(b1, 5, 2) + 4 * Field(b2, 0, 2)
    case 5 => Field(b2, 2, 4)
    case 6 => Field(b2, 6, 1) + 2 * Field(b3, 0, 3)
    case _ => Field(b3, 3, 4)
  }

  lemma QuadCodeAt(bz: int, b0: int, b1: int, b2: int, b3: int, b4: int, col: int, i: int)
    requires 0 <= bz < 256 && 0 <= b0 < 256 && 0 <= b1 < 256
    requires 0 <= b2 < 256 && 0 <= b3 < 256 && 0 <= b4 < 256
    requires 1 <= i <= 7
    ensures DhrCodes(bz, b0, b1, b2, b3, b4, col)[i] == QuadCode(b0, b1, b2, b3, i)
  {
  }

  lemma CodeFollowsStream(b0: int, b1: int, b2: int, b3: int, i: int, j: int)
    requires 0 <= b0 < 256 && 0 <= b1 < 256 && 0 <= b2 < 256 && 0 <= b3 < 256
    requires 1 <= i <= 7 && 0 <= j < 4
    ensures Bit(QuadCode(b0, b1, b2, b3, i), j) <==> StreamBit(b0, b1, b2, b3, 4 * (i - 1) + j)
  {
    if i % 2 == 1 {
      WholeCodeFollowsStream(b0, b1, b2, b3, i, j);
    } else {
      SplitCodeFollowsStream(b0, b1, b2, b3, i, j);
    }
  }

  /** Codes 1, 3, 5 and 7 lie within one byte. */
  lemma WholeCodeFollowsStream(b0: int, b1: int, b2: int, b3: int, i: int, j: int)
    requires 0 <= b0 < 256 && 0 <= b1 < 256 && 0 <= b2 < 256 && 0 <= b3 < 256
    requires i in {1, 3, 5, 7} && 0 <= j < 4
    ensures Bit(QuadCode(b0, b1, b2, b3, i), j) <==> StreamBit(b0, b1, b2, b3, 4 * (i - 1) + j)
  {
    var t := 4 * (i - 1) + j;
    if i == 1 {
      FieldBit(b0, 0, 4, j);
      StreamAt(b0, b1, b2, b3, t, 0, j);
    } else if i == 3 {
      FieldBit(b1, 1, 4, j);
      StreamAt(b0, b1, b2, b3, t, 1, 1 + j);
    } else if i == 5 {
      FieldBit(b2, 2, 4, j);
      StreamAt(b0, b1, b2, b3, t, 2, 2 + j);
    } else {
      FieldBit(b3, 3, 4, j);
      StreamAt(b0, b1, b2, b3, t, 3, 3 + j);
    }
  }

  /** Codes 2, 4 and 6 join the top of one byte to the bottom of the next. */
  lemma SplitCodeFollowsStream(b0: int, b1: int, b2: int, b3: int, i: int, j: int)
    requires 0 <= b0 < 256 && 0 <= b1 < 256 && 0 <= b2 < 256 && 0 <= b3 < 256
    requires i in {2, 4, 6} && 0 <= j < 4
    ensures Bit(QuadCode(b0, b1, b2, b3, i), j) <==> StreamBit(b0, b1, b2, b3, 4 * (i - 1) + j)
  {
    var t := 4 * (i - 1) + j;
    if i == 2 {
      assert Pow2(3) == 8;
      JoinBit(b0, 4, 3, b1, 0, j);
      if j < 3 {
        StreamAt(b0, b1, b2, b3, t, 0, 4 + j);
      } else {
        StreamAt(b0, b1, b2, b3, t, 1, 0);
      }
    } else if i == 4 {
      assert Pow2(2) == 4;
      JoinBit(b1, 5, 2, b2, 0, j);
      if j < 2 {
        StreamAt(b0, b1, b2, b3, t, 1, 5 + j);
      } else {
        StreamAt(b0, b1, b2, b3, t, 2, j - 2);
      }
    } else {
      assert Pow2(1) == 2;
      JoinBit(b2, 6, 1, b3, 0, j);
      if j < 1 {
        StreamAt(b0, b1, b2, b3, t, 2, 6);
      } else {
        StreamAt(b0, b1, b2, b3, t, 3, j - 1);
      }
    }
  }

  /** Stream bit 7k + m is bit m of byte k of the quad. */
  lemma StreamAt(b0: int, b1: int, b2: int, b3: int, t: int, k: int, m: int)
    requires 0 <= k < 4 && 0 <= m < 7 && t == 7 * k + m
    ensures StreamBit(b0, b1, b2, b3, t) == Bit(if k == 0 then b0 else if k == 1 then b1 else if k == 2 then b2 else b3, m)
  {
    DivMod(t, 7, k, m);
  }

  /** Bit j of a field is bit s + j of the whole. */
  lemma FieldBit(x: int, s: nat, w: nat, j: nat)
    requires 0 <= x
    ensures Bit(Field(x, s, w), j) == (j < w && Bit(x, s + j))
  {
    var y := x / Pow2(s);
    Recompose(x, Pow2(s));
    BitLow(y, w, j);
    BitShift(x, s, j);
  }

  /** Bit j of a 4-bit code made of a w-bit field of x followed by a field of y. */
  lemma JoinBit(x: int, s: nat, w: nat, y: int, t: nat, j: nat)
    requires 0 <= x && 0 <= y && w <= 3
    ensures Bit(Field(x, s, w) + Pow2(w) * Field(y, t, 4 - w), j) ==
            if j < w then Bit(x, s + j) else (j < 4 && Bit(y, t + j - w))
  {
    BitSplit(Field(x, s, w), Field(y, t, 4 - w), w, j);
    if j < w {
      FieldBit(x, s, w, j);
    } else {
      FieldBit(y, t, 4 - w, j - w);
    }
  }

  /** `colorMap`: how much of each colour number's pixel quarter shows in the
      idealised composite display, in tenths. */
  const ColorMap: seq<seq<int>> := [
    [0, 0, 0, 0], [0, 0, 5, 10], [10, 7, 0, 0], [10, 4, 6, 10],
    [7, 10, 6, 0], [10, 10, 10, 7], [10, 10, 7, 5], [10, 10, 7, 6],
    [0, 6, 10, 7], [5, 7, 10, 10], [7, 10, 10, 10], [10, 7, 10, 10],
    [9, 10, 10, 5], [7, 10, 10, 10], [10, 10, 10, 7], [10, 10, 10, 10]]

  /** `dim(c, 0.5)`: halving each channel is exact in floating point. */
  function Halve(c: Color): (h: Color)
    ensures 2 * (h.r as int) <= c.r as int < 2 * (h.r as int) + 2
    ensures 2 * (h.g as int) <= c.g as int < 2 * (h.g as int) + 2
    ensures 2 * (h.b as int) <= c.b as int < 2 * (h.b as int) + 2
  {
    Color(c.r / 2, c.g / 2, c.b / 2)
  }

  /** The composite shading of quarter jdx of colour number n: a full share
      keeps the colour, no share is black, a half share halves it; the other
      shares blend in floating point and are given by `shade(dcolor, clr)`. */
  function CompositeColor(shade: (Color, int) -> Color, dcolor: Color, n: int, jdx: int): (r: Color)
    requires 0 <= n < 16 && 0 <= jdx < 4
    ensures n == 0 ==> r == Black
    ensures n == 15 ==> r == dcolor
    ensures ColorMap[n][jdx] == 5 ==> r == Halve(dcolor)
  {
    var clr := ColorMap[n][jdx];
    if clr == 10 then dcolor
    else if clr == 0 then Black
    else if clr == 5 then Halve(dcolor)
    else shade(dcolor, clr)
  }

  /** The colour of quarter jdx of code idx: thresholded black and white in
      the mono modes, the colour of the code through `r4` otherwise, except
      that the mixed mode shows codes without their high bit in black and white. */
  function DhrColor(mono: bool, mixed: bool, composited: bool, palette: int, shade: (Color, int) -> Color,
                    c: seq<int>, hb: seq<bool>, idx: int, jdx: int): (r: Color)
    requires |c| == 9 && |hb| == 9 && (forall i :: 0 <= i < 9 ==> 0 <= c[i] < 16)
    requires 1 <= idx <= 7 && 0 <= jdx < 4
    ensures mono ==> (r == White <==> Bit(c[idx], jdx)) && (r == White || r == Black)
    ensures !mono && mixed && !hb[idx] ==> (r == White <==> Bit(c[idx], jdx)) && (r == White || r == Black)
    ensures !mono && (!mixed || hb[idx]) && !composited ==> r == Color16(palette, R4[c[idx]])
    ensures !mono && !mixed && c[idx] == 0 ==> r == Black
  {
    R4Permutation();
    var n := R4[c[idx]];
    var dcolor := Color16(palette, n);
    if mono then (if Bit(c[idx], jdx) then White else Black)
    else if mixed then (if hb[idx] then dcolor else if Bit(c[idx], jdx) then White else Black)
    else if composited then CompositeColor(shade, dcolor, n, jdx)
    else dcolor
  }

  /** The 28 half-pixels of a quad, from the even column of the pair. */
  function DhrPlan(line: int, col: int, mono: bool, mixed: bool, composited: bool, palette: int,
                   shade: (Color, int) -> Color, c: seq<int>, hb: seq<bool>): (plan: Plan)
    requires 0 <= line < H && 0 <= col < 40
    requires |c| == 9 && |hb| == 9 && (forall i :: 0 <= i < 9 ==> 0 <= c[i] < 16)
    ensures Fits(plan) && plan.Rect? && plan.y0 == line && plan.h == 1 && plan.w == 28
    ensures plan.x0 == (col - col % 2) * 14
  {
    Rect((col - col % 2) * 14, line, 28, 1,
         (j, k) => if 0 <= k < 28 then DhrColor(mono, mixed, composited, palette, shade, c, hb, k / 4 + 1, k % 4)
                   else Black)
  }

  /** In the mono modes half-pixel k of a quad is white exactly when bit k
      of the quad's bit stream is set. */
  lemma DhrMonoPixel(line: int, col: int, composited: bool, palette: int, shade: (Color, int) -> Color,
                     bz: int, b0: int, b1: int, b2: int, b3: int, b4: int, k: int)
    requires 0 <= line < H && 0 <= col < 40 && 0 <= k < 28
    requires 0 <= bz < 256 && 0 <= b0 < 256 && 0 <= b1 < 256
    requires 0 <= b2 < 256 && 0 <= b3 < 256 && 0 <= b4 < 256
    ensures var c := DhrCodes(bz, b0, b1, b2, b3, b4, col);
      var plan := DhrPlan(line, col, true, false, composited, palette, shade, c, DhrHigh(bz, b0, b1, b2, b3, b4, col));
      plan.f(0, k) == if StreamBit(b0, b1, b2, b3, k) then White else Black
  {
    DhrCodesFollowStream(bz, b0, b1, b2, b3, b4, col, k / 4 + 1, k % 4);
  }

  /** Example: a quad whose first auxiliary byte is 0x0F has code 1 equal
      to 15, which `r4` keeps as white. */
  lemma DhrWhiteCode(palette: int, shade: (Color, int) -> Color, jdx: int)
    requires 0 <= jdx < 4
    ensures var c := DhrCodes(0, 0x0F, 0, 0, 0, 0, 0);
      c[1] == 15 && DhrColor(false, false, false, palette, shade, c, DhrHigh(0, 0x0F, 0, 0, 0, 0, 0), 1, jdx) == White
  {
    assert Pow2(0) == 1 && Pow2(4) == 16;
    assert Field(0x0F, 0, 4) == 15;
    var c := DhrCodes(0, 0x0F, 0, 0, 0, 0, 0);
    assert c[1] == 15;
    R4Permutation();
    assert Color16(palette, R4[15]) == White;
  }

  /** 160-wide double hi-res: a byte is two pixels, three and four half-pixels
      wide, in the colours of its low and its high nibble; the auxiliary byte
      takes the left half of the cell. */
  function OneSixtyPlan(line: int, col: int, bank: int, palette: int, val: int): (plan: Plan)
    requires 0 <= line < H && 0 <= col < 40 && 0 <= val < 256
    ensures Fits(plan) && plan.Rect? && plan.y0 == line && plan.h == 1 && plan.w == 7
    ensures plan.x0 == col * 14 + (if bank == 0 then 7 else 0)
  {
    Rect(col * 14 + (if bank == 0 then 7 else 0), line, 7, 1,
         (j, k) => Color16(palette, if k < 3 then val % 16 else val / 16))
  }

  /* ---------------------------------------------------------------------
   * Single hi-res on the canvas (js/canvas.ts:817-873).
   * ------------------------------------------------------------------- */

  /** The bits the decoder walks: bits 5 and 6 of the byte to the left, the
      seven data bits of the byte, and bits 0 and 1 of the byte to the right. */
  function HiresWindow(prev: int, cur: int, next: int): (w: int)
    requires 0 <= prev && 0 <= cur && 0 <= next
    ensures 0 <= w
  {
    Field(prev, 5, 2) + 4 * (Field(cur, 0, 7) + 128 * Field(next, 0, 2))
  }

  /** Bits of the window: 0-1 from the left byte, 2-8 the byte's own seven
      data bits, 9-10 from the right byte. */
  lemma HiresWindowBit(prev: int, cur: int, next: int, t: int)
    requires 0 <= prev && 0 <= cur && 0 <= next && 0 <= t < 11
    ensures Bit(HiresWindow(prev, cur, next), t) ==
      if t < 2 then Bit(prev, t + 5) else if t < 9 then Bit(cur, t - 2) else Bit(next, t - 9)
  {
    assert Pow2(2) == 4 && Pow2(7) == 128;
    var mid := Field(cur, 0, 7) + 128 * Field(next, 0, 2);
    BitSplit(Field(prev, 5, 2), mid, 2, t);
    if t < 2 {
      FieldBit(prev, 5, 2, t);
    } else {
      BitSplit(Field(cur, 0, 7), Field(next, 0, 2), 7, t - 2);
      if t < 9 {
        FieldBit(cur, 0, 7, t - 2);
      } else {
        FieldBit(next, 0, 2, t - 9);
      }
    }
  }

  /** Step idx (0..8) of the decoding loop: v1 is the bit drawn, v0 and v2
      its neighbours; `odd` starts true on even columns and alternates. */
  function HiresColor(mono: bool, highColor: bool, palette: int, aux: int, cur: int, w: int,
                      col: int, idx: int): (r: Color)
    requires 0 <= aux < 256
    ensures mono ==> (r == White <==> Bit(w, idx + 1)) && (r == White || r == Black)
    ensures !mono && highColor ==> r == Color16(palette, if Bit(w, idx + 1) then aux / 16 else aux % 16)
    ensures !mono && !highColor && Bit(w, idx + 1) && (Bit(w, idx) || Bit(w, idx + 2)) ==> r == White
    ensures !mono && !highColor && !Bit(w, idx) && !Bit(w, idx + 2) ==>
      r == if !Bit(w, idx + 1) then Black
           else if (col + idx) % 2 == 0 then (if cur >= 128 then SetColors(palette).orange else SetColors(palette).green)
           else (if cur >= 128 then SetColors(palette).blue else SetColors(palette).violet)
  {
    var v0, v1, v2 := Bit(w, idx), Bit(w, idx + 1), Bit(w, idx + 2);
    var odd := (col + idx) % 2 == 0;
    var hc := SetColors(palette);
    var oddCol := if cur >= 128 then hc.orange else hc.green;
    var evenCol := if cur >= 128 then hc.blue else hc.violet;
    if v1 then
      if mono then White
      else if highColor then Color16(palette, aux / 16)
      else if v0 || v2 then hc.white
      else if odd then oddCol else evenCol
    else
      if mono then Black
      else if highColor then Color16(palette, aux % 16)
      else if odd && v2 && v0 then Dim(evenCol)
      else if !odd && v0 && v2 then Dim(oddCol)
      else hc.black
  }

  /** Nine double-width pixels from x = col * 14 - 2, those outside the
      screen (`dx > -1 && dx < 560`) skipped. */
  function HiresPlan(line: int, col: int, mono: bool, highColor: bool, palette: int,
                     aux: int, prev: int, cur: int, next: int): (plan: Plan)
    requires 0 <= line < H && 0 <= col < 40
    requires 0 <= aux < 256 && 0 <= prev < 256 && 0 <= cur < 256 && 0 <= next < 256
    ensures Fits(plan) && plan.Rect? && plan.y0 == line && plan.h == 1
    ensures plan.x0 == (if col == 0 then 0 else col * 14 - 2)
    ensures plan.x0 + plan.w == (if col == 39 then W else col * 14 + 16)
  {
    var start := col * 14 - 2;
    var x0 := if col == 0 then 0 else start;
    var w := if col == 0 || col == 39 then 16 else 18;
    Rect(x0, line, w, 1,
         (j, k) => HiresColor(mono, highColor, palette, aux, cur, HiresWindow(prev, cur, next),
                              col, (x0 + k - start) / 2))
  }

  /** In mono mode the canvas shows the byte's seven data bits as double-width
      pixels from col * 14, flanked by bit 6 of the byte to the left and bit 0
      of the byte to the right: half-pixel x is white exactly when its bit is set. */
  lemma HiresMonoPixel(line: int, col: int, highColor: bool, palette: int, aux: int,
                       prev: int, cur: int, next: int, x: int)
    requires 0 <= line < H && 0 <= col < 40
    requires 0 <= aux < 256 && 0 <= prev < 256 && 0 <= cur < 256 && 0 <= next < 256
    requires col * 14 - 2 <= x < col * 14 + 16 && 0 <= x < W
    ensures var plan := HiresPlan(line, col, true, highColor, palette, aux, prev, cur, next);
      var i := (x - col * 14 + 2) / 2 - 1;
      plan.x0 <= x < plan.x0 + plan.w &&
      plan.f(0, x - plan.x0) ==
        if (if i < 0 then Bit(prev, 6) else if i < 7 then Bit(cur, i) else Bit(next, 0))
        then White else Black
  {
    var plan := HiresPlan(line, col, true, highColor, palette, aux, prev, cur, next);
    var idx := (x - (col * 14 - 2)) / 2;
    assert 0 <= idx <= 8;
    var w := HiresWindow(prev, cur, next);
    assert plan.f(0, x - plan.x0) == HiresColor(true, highColor, palette, aux, cur, w, col, idx);
    assert plan.f(0, x - plan.x0) == if Bit(w, idx + 1) then White else Black;
    HiresWindowBit(prev, cur, next, idx + 1);
  }

  /* ---------------------------------------------------------------------
   * The GL page (js/gl.ts:484-525): black and white only; the shader
   * makes the colours.
   * ------------------------------------------------------------------- */

  function BitColor(b: bool): Color {
    if b then White else Black
  }

  /** Double hi-res: seven half-pixels from col * 14, the main byte in the
      right half of the cell; half-pixel i is bit i. */
  function GlDhrPlan(line: int, col: int, bank: int, val: int): (plan: Plan)
    requires 0 <= line < H && 0 <= col < 40
    ensures Fits(plan) && plan.Rect? && plan.y0 == line && plan.h == 1 && plan.w == 7
    ensures plan.x0 == col * 14 + (if bank != 0 then 0 else 7)
    ensures forall k :: 0 <= k < 7 ==> (plan.f(0, k) == White <==> Bit(val, k))
  {
    Rect(col * 14 + (if bank != 0 then 0 else 7), line, 7, 1, (j, k) => BitColor(Bit(val, k)))
  }

  /** Single hi-res: with the high bit set the seven pixels move right by a
      half-pixel, the gap taking bit 6 of the byte to the left; in column 39
      the last pixel is then cut to a half so nothing passes x = 560. */
  function GlHiresPlan(line: int, col: int, prev: int, val: int): (plan: Plan)
    requires 0 <= line < H && 0 <= col < 40 && 0 <= val < 256
    ensures Fits(plan) && plan.Rect? && plan.y0 == line && plan.h == 1 && plan.x0 == col * 14
    ensures plan.w == (if val >= 128 && col < 39 then 15 else 14)
  {
    var hbs := val >= 128;
    Rect(col * 14, line, if hbs && col < 39 then 15 else 14, 1,
         (j, k) => if hbs then (if k == 0 then BitColor(Bit(prev, 6)) else BitColor(Bit(val, (k - 1) / 2)))
                   else BitColor(Bit(val, k / 2)))
  }

  /** The GL single hi-res pixels: half-pixel col * 14 + k shows bit
      (k - s) / 2 of the byte, s being 1 with the high bit set and 0
      without, and with the high bit set half-pixel 0 shows bit 6 of the
      byte to the left. */
  lemma GlHiresPixel(line: int, col: int, prev: int, val: int, k: int)
    requires 0 <= line < H && 0 <= col < 40 && 0 <= val < 256
    requires 0 <= k < GlHiresPlan(line, col, prev, val).w
    ensures var s := if val >= 128 then 1 else 0;
      (GlHiresPlan(line, col, prev, val).f(0, k) == White) <==>
      (if k < s then Bit(prev, 6) else Bit(val, (k - s) / 2))
    ensures (k - (if val >= 128 then 1 else 0)) / 2 < 7
  {
    var plan := GlHiresPlan(line, col, prev, val);
    assert White != Black;
    if val >= 128 {
      if k == 0 {
        assert plan.f(0, k) == BitColor(Bit(prev, 6));
      } else {
        assert plan.f(0, k) == BitColor(Bit(val, (k - 1) / 2));
      }
    } else {
      assert plan.f(0, k) == BitColor(Bit(val, k / 2));
    }
  }

  /** The bus address of a window offset, split into page and offset, lies
      in the page's bus range and leads back to the offset. */
  lemma HiresAddress(addr: int, n: int, idx: int)
    requires 0 <= idx < 0x2000 && 1 <= n <= 2 && addr == 0x2000 * n + idx
    ensures 0x20 * n <= addr / 256 <= 0x20 * n + 0x1f && 0 <= addr % 256 < 256
    ensures Offset(addr / 256, addr % 256, 0x2000) == idx
  {
    DivMod(addr, 256, 0x20 * n + idx / 256, idx % 256);
    DivMod(addr, 0x2000, n, idx);
  }

  /** `_write`'s visibility test and dirty box, from the bus page and
      offset, are those of the window offset. */
  lemma WriteBox(page: int, off: int)
    requires 0 <= page && 0 <= off < 256
    ensures var base := Offset(page, off, 0x2000);
      var rowa, col := TextRow(page, off), ColOf(base);
      ((rowa < 24 && col < 40) <==> HiresVisible(base)) &&
      rowa * 16 + (base / 0x400) * 2 == 2 * HiresLine(base)
  {
    var base := Offset(page, off, 0x2000);
    AddressRow(page, off, 0x2000);
    ColOfLowByte(base);
  }

  /** The top-left and the bottom-right visible offsets. */
  lemma FirstLine()
    ensures HiresVisible(0) && HiresLine(0) == 0 && ColOf(0) == 0
  {
    FirstCell();
    DivMod(0, 0x400, 0, 0);
  }

  lemma LastLine()
    ensures HiresVisible(0x1FF7) && HiresLine(0x1FF7) == 191 && ColOf(0x1FF7) == 39
  {
    LastCell();
    DivMod(0x1FF7, 0x400, 7, 0x3F7);
    ColOfLowByte(0x1FF7);
  }

  /** A box inside the screen's keeps a dirty rectangle between its
      starting value and the whole screen. */
  lemma BoxWithin(d0: Region, d: Region, top: int, bottom: int, left: int, right: int,
                  maxBottom: int, minLeft: int, maxRight: int)
    requires 0 <= top && bottom <= maxBottom && minLeft <= left && right <= maxRight
    requires Grows(d0, d) && Grows(d, Widen(d0, 0, maxBottom, minLeft, maxRight))
    ensures Grows(d0, Widen(d, top, bottom, left, right))
    ensures Grows(Widen(d, top, bottom, left, right), Widen(d0, 0, maxBottom, minLeft, maxRight))
  {
  }

  /** A rectangle squeezed between d0 and the screen's box, reaching the
      screen's corners, is the screen's box. */
  lemma Squeeze(d0: Region, d: Region, bottom: int, left: int, right: int)
    requires Grows(d0, d) && Grows(d, Widen(d0, 0, bottom, left, right))
    requires d.top <= 0 && d.left <= left && d.bottom >= bottom && d.right >= right
    ensures d == Widen(d0, 0, bottom, left, right)
  {
  }
}
