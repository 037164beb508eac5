/**
 * The pieces shared by both video back ends: bytes, colours, the 560x192
 * pixel surface, dirty rectangles, the mode flags a page decoder reads, and
 * the interleaved address-to-screen mapping of the video hardware.
 *
 * A page's RGBA surface is modelled as an array of N pixels; pixel p is the
 * RGBA quadruple at byte offset 4*p of the source's `imageData.data`. The
 * alpha byte is filled with 0xff once and never written, so it is left out.
 */
module Screen {

  newtype byte = x: int | 0 <= x < 256

  const W: int := 560
  const H: int := 192
  const N: int := W * H

  datatype Color = Color(r: byte, g: byte, b: byte)

  const White := Color(255, 255, 255)
  const Black := Color(0, 0, 0)

  /** Reads a memory byte; an offset outside the buffer reads as 0 (the
      source gets `undefined`, which its bit operations treat as 0). A
      missing auxiliary bank is an empty buffer here and so also reads as 0;
      in the source no path reads it, since only a IIe can select a mode
      that reads bank 1. */
  function ReadByte(a: array<byte>, i: int): (v: int)
    reads a
    ensures 0 <= v < 256
    ensures 0 <= i < a.Length ==> v == a[i] as int
    ensures !(0 <= i < a.Length) ==> v == 0
  {
    if 0 <= i < a.Length then a[i] as int else 0
  }

  /* ---------------------------------------------------------------------
   * Mode flags, as a page decoder reads them from its controller.
   * ------------------------------------------------------------------- */

  datatype Modes = Modes(
    text: bool, mixed: bool, hires: bool, page: int, col80: bool,
    altChar: bool, an3: bool, dhr: bool, flag: int, mono: bool,
    composited: bool, palette: int)

  /* ---------------------------------------------------------------------
   * Dirty rectangles.
   * ------------------------------------------------------------------- */

  datatype Region = Region(top: int, bottom: int, left: int, right: int)

  /** The "nothing changed" sentinel. */
  const NotDirty := Region(193, -1, 561, -1)

  predicate Grows(d: Region, d': Region) {
    d'.top <= d.top && d'.bottom >= d.bottom && d'.left <= d.left && d'.right >= d.right
  }

  predicate Covers(d: Region, top: int, bottom: int, left: int, right: int) {
    d.top <= top && d.bottom >= bottom && d.left <= left && d.right >= right
  }

  /** The four `if (y < dirty.top) dirty.top = y` updates: the least region
      that holds both `d` and the box. */
  function Widen(d: Region, top: int, bottom: int, left: int, right: int): (r: Region)
    ensures Grows(d, r) && Covers(r, top, bottom, left, right)
    ensures forall q: Region :: Grows(d, q) && Covers(q, top, bottom, left, right) ==> Grows(r, q)
  {
    Region(if top < d.top then top else d.top,
           if bottom > d.bottom then bottom else d.bottom,
           if left < d.left then left else d.left,
           if right > d.right then right else d.right)
  }

  lemma GrowsTrans(a: Region, b: Region, c: Region)
    requires Grows(a, b) && Grows(b, c)
    ensures Grows(a, c)
  {
  }

  /* ---------------------------------------------------------------------
   * Drawing plans: the pixels one decoded byte paints.
   * ------------------------------------------------------------------- */

  predicate InRect(p: int, x0: int, y0: int, w: int, h: int) {
    y0 <= p / W < y0 + h && x0 <= p % W < x0 + w
  }

  /** What one decode step paints: nothing, or the w x h block of half-pixels whose
      top-left corner is (x0, y0), half-pixel (x0 + k, y0 + j) getting colour f(j, k). */
  datatype Plan = NoDraw | Rect(x0: int, y0: int, w: int, h: int, f: (int, int) -> Color)

  predicate Fits(plan: Plan) {
    plan.Rect? ==>
      0 <= plan.x0 && 0 <= plan.w && plan.x0 + plan.w <= W &&
      0 <= plan.y0 && 0 <= plan.h && plan.y0 + plan.h <= H
  }

  /** Plan `plan` lies inside the w x h box at (x0, y0). */
  predicate Inside(plan: Plan, x0: int, y0: int, w: int, h: int) {
    plan.Rect? ==>
      x0 <= plan.x0 && plan.x0 + plan.w <= x0 + w && y0 <= plan.y0 && plan.y0 + plan.h <= y0 + h
  }

  /** The colour of pixel p after `plan` is painted over a pixel that was `was`. */
  function PlanPixel(plan: Plan, p: int, was: Color): Color {
    if plan.Rect? && InRect(p, plan.x0, plan.y0, plan.w, plan.h)
    then plan.f(p / W - plan.y0, p % W - plan.x0)
    else was
  }

  /** A whole image after `plan` is painted over it. */
  function Painted(plan: Plan, px: seq<Color>): (r: seq<Color>)
    ensures |r| == |px| && forall p :: 0 <= p < |px| ==> r[p] == PlanPixel(plan, p, px[p])
  {
    seq(|px|, p requires 0 <= p < |px| => PlanPixel(plan, p, px[p]))
  }

  lemma InsideKeeps(plan: Plan, x0: int, y0: int, w: int, h: int, p: int, was: Color)
    requires Inside(plan, x0, y0, w, h) && !InRect(p, x0, y0, w, h)
    ensures PlanPixel(plan, p, was) == was
  {
  }

  lemma LineCol(y: int, x: int)
    requires 0 <= x < W
    ensures (y * W + x) / W == y && (y * W + x) % W == x
  {
  }

  /** The drawing loops of `_write`: for each of the plan's lines, paint its
      half-pixels left to right (`_drawHalfPixel`, or `_drawPixel` as two
      equal half-pixels), then step the offset to the next line. */
  method Paint(px: array<Color>, plan: Plan)
    requires px.Length == N && Fits(plan)
    modifies px
    ensures forall p :: 0 <= p < N ==> px[p] == PlanPixel(plan, p, old(px[p]))
  {
    if plan.NoDraw? {
      return;
    }
    var Rect(x0, y0, w, h, f) := plan;
    var offset := x0 + y0 * W;
    var jdx := 0;
    while jdx < h
      invariant 0 <= jdx <= h
      invariant offset == x0 + (y0 + jdx) * W
      invariant forall p :: 0 <= p < N ==> px[p] == PlanPixel(Rect(x0, y0, w, jdx, f), p, old(px[p]))
    {
      var idx := 0;
      while idx < w
        invariant 0 <= idx <= w
        invariant offset == x0 + idx + (y0 + jdx) * W
        invariant forall p :: 0 <= p < N ==>
          px[p] == (if InRect(p, x0, y0 + jdx, idx, 1) then f(jdx, p % W - x0)
                    else PlanPixel(Rect(x0, y0, w, jdx, f), p, old(px[p])))
      {
        LineCol(y0 + jdx, x0 + idx);
        px[offset] := f(jdx, idx);
        offset := offset + 1;
        idx := idx + 1;
      }
      offset := offset + (W - w);
      jdx := jdx + 1;
    }
  }

  /* ---------------------------------------------------------------------
   * The interleaved screen layout (js/canvas.ts:242-249, 487-492).
   * A text/lo-res window is 0x400 bytes; a 128-byte group holds three
   * 40-byte rows (8 rows apart) and an 8-byte unused tail.
   * ------------------------------------------------------------------- */

  /** `(base % 0x80) % 0x28`. */
  function ColOf(base: int): int {
    (base % 0x80) % 0x28
  }

  /** The row the source derives from a bus address (page, off):
      adj = off - col, row = (adj & 0x18) | ((page & 3) << 1) | (adj >> 7).
      The three parts occupy disjoint bits, so `|` is `+`. */
  function TextRow(page: int, off: int): int
    requires 0 <= off < 256
  {
    var adj := off - ColOf(off);
    (adj / 8 % 4) * 8 + (page % 4) * 2 + adj / 128
  }

  /** The row of a window offset (page & 3 is the offset's bits 8-9). */
  function RowOfBase(base: int): int
    requires 0 <= base
  {
    TextRow(base / 256, base % 256)
  }

  /** `rowToBase`: the window offset of column 0 of a text row. */
  function RowToBase(row: int): int
    requires 0 <= row
  {
    var ab := (row / 8) % 4;
    var cd := (row / 2) % 4;
    var e := row % 2;
    cd * 256 + e * 128 + ab * 40
  }

  predicate Visible(base: int)
    requires 0 <= base
  {
    RowOfBase(base) < 24 && ColOf(base) < 40
  }

  lemma MulBound(a: int, d: int)
    requires 0 < d
    ensures a >= 1 ==> a * d >= d
    ensures a <= -1 ==> a * d <= -d
  {
  }

  /** Quotient and remainder are unique. */
  lemma DivMod(x: int, d: int, q: int, r: int)
    requires 0 < d && 0 <= r < d && x == q * d + r
    ensures x / d == q && x % d == r
  {
    var k := x / d;
    var s := x % d;
    assert (k - q) * d == r - s;
    MulBound(k - q, d);
  }

  lemma ColOfLowByte(b: int)
    requires 0 <= b
    ensures ColOf(b) == ColOf(b % 256) && ColOf(b) == ColOf(b % 0x400)
  {
    DivMod(b, 128, 2 * (b / 256) + (b % 256) / 128, (b % 256) % 128);
    DivMod(b, 128, 8 * (b / 0x400) + (b % 0x400) / 128, (b % 0x400) % 128);
  }

  /** The address the source computes from (page, off) lands on the window
      offset whose row and column `RowOfBase`/`ColOf` give. */
  /** The offset of a bus page and page offset in a page's memory window of
      `size` bytes; the window repeats across the address space. */
  function Offset(page: int, off: int, size: int): (base: int)
    requires 0 < size
    ensures 0 <= base < size
  {
    (page * 256 + off) % size
  }

  /** A bus address in the 1 KiB window of page group `n` split into its bus
      page and page offset, which lead back to the window offset. */
  lemma WindowAddress(addr: int, n: int, idx: int)
    requires 0 <= idx < 0x400 && 0 <= n < 64 && addr == 0x400 * n + idx
    ensures 0 <= addr / 256 < 256 && 0 <= addr % 256 < 256
    ensures Offset(addr / 256, addr % 256, 0x400) == idx
  {
    DivMod(addr, 256, addr / 256, addr % 256);
    DivMod(addr, 0x400, n, idx);
  }

  /** The text row of a 1 KiB window offset computed from its bus page and
      page offset. */
  lemma WindowRow(page: int, off: int)
    requires 0 <= page && 0 <= off < 256
    ensures TextRow(page, off) == RowOfBase(Offset(page, off, 0x400))
  {
    var base := (page * 256 + off) % 0x400;
    AddressRow(page, off, 0x400);
    DivMod(base, 0x400, 0, base);
  }

  lemma AddressRow(page: int, off: int, mask: int)
    requires 0 <= page && 0 <= off < 256 && (mask == 0x400 || mask == 0x2000)
    ensures var base := (page * 256 + off) % mask;
      TextRow(page, off) == RowOfBase(base % 0x400) && ColOf(base) == ColOf(off)
  {
    var base := LowWindow(page, off, mask);
    var j := page % 4;
    PageRow(j, off);
    DivMod(page, 4, page / 4, j);
    DivMod(j, 4, 0, j);
    ColOfLowByte(base);
  }

  /** The window offset of (page, off) keeps `off` in its low byte and
      bits 0-1 of `page` in bits 8-9. */
  lemma LowWindow(page: int, off: int, mask: int) returns (base: int)
    requires 0 <= page && 0 <= off < 256 && (mask == 0x400 || mask == 0x2000)
    ensures base == (page * 256 + off) % mask && 0 <= base
    ensures base % 0x400 == 256 * (page % 4) + off && base % 256 == off
  {
    var a := page * 256 + off;
    base := a % mask;
    var j: int;
    if mask == 0x400 {
      j := page % 4;
      DivMod(a, 0x400, page / 4, 256 * j + off);
    } else {
      j := page % 32;
      DivMod(a, 0x2000, page / 32, 256 * j + off);
    }
    DivMod(base, 1024, j / 4, 256 * (j % 4) + off);
    DivMod(base, 256, j, off);
    DivMod(page, 4, page / 4, page % 4);
    DivMod(j, 4, j / 4, j % 4);
    assert page % 4 == j % 4 by {
      if mask == 0x2000 {
        DivMod(page, 4, 8 * (page / 32) + j / 4, j % 4);
      }
    }
  }

  /** The row of offset `256 * j + off` of the first 1 KiB is the text row of
      bus page j. */
  lemma PageRow(j: int, off: int)
    requires 0 <= j < 4 && 0 <= off < 256
    ensures RowOfBase(256 * j + off) == TextRow(j, off)
  {
    DivMod(256 * j + off, 256, j, off);
  }

  /** A page offset split into its 128-byte half e, its 40-byte group t and
      its column c has text row 8t + 2(page mod 4) + e. */
  lemma OffsetRow(page: int, off: int, e: int, t: int, c: int)
    requires 0 <= off < 256 && 0 <= e < 2 && 0 <= t < 4 && 0 <= c < 40 && off == 128 * e + 40 * t + c
    requires t == 3 ==> c < 8
    ensures ColOf(off) == c && TextRow(page, off) == 8 * t + 2 * (page % 4) + e
  {
    DivMod(off, 128, e, 40 * t + c);
    DivMod(40 * t + c, 40, t, c);
    GroupRow(e, t);
  }

  lemma GroupRow(e: int, t: int)
    requires 0 <= e < 2 && 0 <= t < 4
    ensures (128 * e + 40 * t) / 8 % 4 == t && (128 * e + 40 * t) / 128 == e
  {
    DivMod(128 * e + 40 * t, 8, 16 * e + 5 * t, 0);
    DivMod(16 * e + 5 * t, 4, 4 * e + t, t);
    DivMod(128 * e + 40 * t, 128, e, 40 * t);
  }

  /** The parts of a window offset of the first 1 KiB. */
  lemma BaseParts(base: int) returns (q: int, e: int, t: int, c: int)
    requires 0 <= base < 0x400
    ensures 0 <= q < 4 && 0 <= e < 2 && 0 <= t < 4 && 0 <= c < 40 && (t == 3 ==> c < 8)
    ensures base == 256 * q + 128 * e + 40 * t + c
    ensures RowOfBase(base) == 8 * t + 2 * q + e && ColOf(base) == c
  {
    q := base / 256;
    var off := base % 256;
    e := off / 128;
    var r := off % 128;
    t := r / 40;
    c := r % 40;
    OffsetRow(q, off, e, t, c);
    DivMod(q, 4, 0, q);
    ColOfLowByte(base);
  }

  /** `rowToBase` of a row given by its parts. */
  lemma RowParts(t: int, q: int, e: int)
    requires 0 <= t < 4 && 0 <= q < 4 && 0 <= e < 2
    ensures RowToBase(8 * t + 2 * q + e) == 256 * q + 128 * e + 40 * t
  {
    var row := 8 * t + 2 * q + e;
    DivMod(row, 8, t, 2 * q + e);
    DivMod(t, 4, 0, t);
    DivMod(row, 2, 4 * t + q, e);
    DivMod(4 * t + q, 4, t, q);
  }

  /** The offset given by its parts has those row and column. */
  lemma PartsBase(q: int, e: int, t: int, c: int)
    requires 0 <= q < 4 && 0 <= e < 2 && 0 <= t < 3 && 0 <= c < 40
    ensures 0 <= 256 * q + 128 * e + 40 * t + c < 0x400
    ensures RowOfBase(256 * q + 128 * e + 40 * t + c) == 8 * t + 2 * q + e
    ensures ColOf(256 * q + 128 * e + 40 * t + c) == c
  {
    var off := 128 * e + 40 * t + c;
    DivMod(256 * q + off, 256, q, off);
    OffsetRow(q, off, e, t, c);
    DivMod(q, 4, 0, q);
    ColOfLowByte(256 * q + off);
  }

  /** Every visible cell (row < 24, col < 40) is reached from offset
      `rowToBase(row) + col`. */
  lemma RowToBaseRoundTrip(row: int, col: int)
    requires 0 <= row < 24 && 0 <= col < 40
    ensures 0 <= RowToBase(row) + col < 0x400
    ensures RowOfBase(RowToBase(row) + col) == row && ColOf(RowToBase(row) + col) == col
  {
    var t := row / 8;
    var q := (row % 8) / 2;
    var e := row % 2;
    DivMod(row, 2, 4 * t + q, e);
    RowParts(t, q, e);
    PartsBase(q, e, t, col);
  }

  /** Conversely every visible window offset is `rowToBase(row) + col` of its
      own row and column, so visible offsets and screen cells correspond one to one. */
  lemma VisibleBase(base: int)
    requires 0 <= base < 0x400 && Visible(base)
    ensures RowToBase(RowOfBase(base)) + ColOf(base) == base
  {
    var q, e, t, c := BaseParts(base);
    RowParts(t, q, e);
  }

  /** Offset 0 is the top-left cell. */
  lemma FirstCell()
    ensures RowOfBase(0) == 0 && ColOf(0) == 0 && Visible(0)
  {
    FirstColumn();
    FirstRow();
  }

  lemma FirstColumn()
    ensures ColOf(0) == 0
  {
    DivMod(0, 0x80, 0, 0);
    DivMod(0, 0x28, 0, 0);
  }

  lemma FirstRow()
    ensures RowOfBase(0) == 0
  {
    FirstColumn();
    DivMod(0, 256, 0, 0);
    DivMod(0, 8, 0, 0);
    DivMod(0, 4, 0, 0);
    DivMod(0, 128, 0, 0);
  }

  /** Offset 0x3F7 is the bottom-right cell (row 23, column 39). */
  lemma LastCell()
    ensures RowOfBase(0x3F7) == 23 && ColOf(0x3F7) == 39 && Visible(0x3F7)
  {
    DivMod(23, 8, 2, 7);
    DivMod(23, 2, 11, 1);
    DivMod(11, 4, 2, 3);
    assert RowToBase(23) == 0x3D0;
    RowToBaseRoundTrip(23, 39);
  }

  /** The 8-byte tail of each 128-byte group (offsets 0x78-0x7F) lies on no
      visible row: such bytes are stored but never drawn. */
  lemma TailInvisible(base: int)
    requires 0 <= base && base % 0x80 >= 0x78
    ensures RowOfBase(base) >= 24
  {
    var off := base % 256;
    var g := base % 0x80;
    DivMod(base, 128, 2 * (base / 256) + off / 128, off % 128);
    assert off % 128 == g;
    DivMod(off, 128, off / 128, g);
    DivMod(g, 40, 3, g - 120);
    var adj := off - ColOf(off);
    assert adj == 128 * (off / 128) + 120;
    DivMod(adj, 8, 16 * (off / 128) + 15, 0);
    DivMod(16 * (off / 128) + 15, 4, 4 * (off / 128) + 3, 3);
  }

  /* ---------------------------------------------------------------------
   * Pixel ownership: the memory byte whose cell a pixel lies in.
   * ------------------------------------------------------------------- */

  /** Text/lo-res: pixel p is in the 14 x 8 cell of offset rowToBase(row) + col. */
  function LoresOwner(p: int): int
    requires 0 <= p
  {
    RowToBase((p / W) / 8) + (p % W) / 14
  }

  /** On the top line the owner is just the column. */
  lemma TopLineOwner(x: int)
    requires 0 <= x < W
    ensures LoresOwner(x) == x / 14
  {
    assert RowToBase(0) == 0;
  }

  /** Hi-res: line L holds sub-row L % 8 of text row L / 8, which lives 0x400
      bytes after the previous sub-row. */
  function HiresOwner(p: int): int
    requires 0 <= p
  {
    ((p / W) % 8) * 0x400 + RowToBase((p / W) / 8) + (p % W) / 14
  }

  predicate InCell(p: int, row: int, col: int) {
    InRect(p, col * 14, row * 8, 14, 8)
  }

  lemma OwnerRange(p: int)
    requires 0 <= p < N
    ensures var row := (p / W) / 8; var col := (p % W) / 14;
      row < 24 && col < 40 && 0 <= LoresOwner(p) < 0x400 && Visible(LoresOwner(p)) &&
      RowOfBase(LoresOwner(p)) == row && ColOf(LoresOwner(p)) == col && InCell(p, row, col)
  {
    RowToBaseRoundTrip((p / W) / 8, (p % W) / 14);
  }

  /** A pixel of a visible offset's cell is owned by that offset. */
  lemma LoresCellOwner(base: int, p: int)
    requires 0 <= base < 0x400 && Visible(base) && 0 <= p < N
    ensures InCell(p, RowOfBase(base), ColOf(base)) <==> LoresOwner(p) == base
  {
    OwnerRange(p);
    VisibleBase(base);
    var rb, cb := RowOfBase(base), ColOf(base);
    assert InCell(p, rb, cb) <==> (p / W) / 8 == rb && (p % W) / 14 == cb;
  }

  /** The hi-res line a window offset draws on: (row << 3) | (base >> 10). */
  function HiresLine(base: int): int
    requires 0 <= base
  {
    RowOfBase(base % 0x400) * 8 + base / 0x400
  }

  lemma HiresOwnerRange(p: int)
    requires 0 <= p < N
    ensures 0 <= HiresOwner(p) < 0x2000 && HiresOwner(p) % 0x400 == LoresOwner(p)
    ensures HiresLine(HiresOwner(p)) == p / W && ColOf(HiresOwner(p)) == (p % W) / 14
  {
    OwnerRange(p);
    var o := HiresOwner(p);
    var t := LoresOwner(p);
    var s := (p / W) % 8;
    assert o == s * 0x400 + t;
    DivMod(o, 0x400, s, t);
    ColOfLowByte(o);
  }

  /** A pixel on a visible hi-res offset's line, in its column range around
      column `col + d`, is owned by offset `base + d`. */
  lemma HiresNeighbourOwner(base: int, d: int, p: int)
    requires 0 <= base < 0x2000 && Visible(base % 0x400) && 0 <= p < N
    requires 0 <= ColOf(base) + d < 40
    requires p / W == HiresLine(base) && (p % W) / 14 == ColOf(base) + d
    ensures HiresOwner(p) == base + d
  {
    var lo := base % 0x400;
    var k := base / 0x400;
    VisibleBase(lo);
    ColOfLowByte(base);
    var row := RowOfBase(lo);
    var L := p / W;
    assert L == row * 8 + k;
    DivMod(L, 8, row, k);
  }

  /** A visible offset's neighbours on the same row are the next and previous
      columns: the column is the offset's distance from the row's base. */
  lemma SameRowNeighbour(base: int, d: int)
    requires 0 <= base < 0x2000 && Visible(base % 0x400)
    requires 0 <= ColOf(base) + d < 40 && -2 <= d <= 2
    ensures 0 <= base + d < 0x2000 && Visible((base + d) % 0x400)
    ensures ColOf(base + d) == ColOf(base) + d && HiresLine(base + d) == HiresLine(base)
  {
    var lo := base % 0x400;
    var k := base / 0x400;
    ColOfLowByte(base);
    var q, e, t, c := BaseParts(lo);
    PartsBase(q, e, t, c + d);
    SplitOffset(base, d, k, lo, lo + d);
    ColOfLowByte(base + d);
  }

  lemma SplitOffset(base: int, d: int, k: int, lo: int, t: int)
    requires base == k * 0x400 + lo && 0 <= lo < 0x400 && 0 <= k < 8 && t == lo + d && 0 <= t < 0x400
    ensures 0 <= base + d < 0x2000 && (base + d) % 0x400 == t && (base + d) / 0x400 == k
  {
    DivMod(base + d, 0x400, k, t);
  }
}
