/**
 * How one byte of a text/lo-res page is decoded into pixels, in the forms
 * both renderers share (js/canvas.ts:232-438, js/gl.ts:128-272). Each
 * function gives the block a decoded byte paints in its 14 x 8 cell at
 * (col * 14, row * 8).
 */
module LoresDecode {
  import opened Screen
  import opened Glyphs
  import opened ColorTables

  /** `(b & 0xc0) === 0x40`: the codes the blink timer redraws. */
  predicate Flashing(b: int) {
    (b / 64) % 4 == 1
  }

  /** The cell of a visible window offset, as a dirty-rectangle box. */
  function LoresDirty(d: Region, base: int): (r: Region)
    requires 0 <= base
    ensures Grows(d, r)
    ensures Visible(base) ==> Covers(r, RowOfBase(base) * 8, RowOfBase(base) * 8 + 8,
                                     ColOf(base) * 14, ColOf(base) * 14 + 14)
    ensures !Visible(base) ==> r == d
  {
    if Visible(base) then
      var row, col := RowOfBase(base), ColOf(base);
      Widen(d, row * 8, row * 8 + 8, col * 14, col * 14 + 14)
    else d
  }

  /** The foreground and background of a character: swapped when inverse. */
  function Fore(inverse: bool): Color {
    if inverse then Black else White
  }

  function Back(inverse: bool): Color {
    if inverse then White else Black
  }

  /** 80-column text: one bank's character fills half the cell, the main bank
      the right half; ROM bit k (bit 0 first) set shows `back`. */
  function Text80Plan(row: int, col: int, bank: int, inverse: bool, charset: seq<byte>, code: int): (plan: Plan)
    requires 0 <= row < 24 && 0 <= col < 40
    ensures Fits(plan) && Inside(plan, col * 14, row * 8, 14, 8)
    ensures plan.Rect? && plan.w == 7 && plan.h == 8 && plan.y0 == row * 8
    ensures plan.x0 == col * 14 + (if bank != 0 then 0 else 7)
  {
    Rect(col * 14 + (if bank != 0 then 0 else 7), row * 8, 7, 8,
         (j, k) => if Bit(GlyphRow(charset, code, j), k) then Back(inverse) else Fore(inverse))
  }

  /** 40-column text on a IIe: each ROM bit (bit 0 first) is a double-width
      pixel, a set bit showing `back`. */
  function Text40Plan(row: int, col: int, fore: Color, back: Color, charset: seq<byte>, code: int): (plan: Plan)
    requires 0 <= row < 24 && 0 <= col < 40
    ensures Fits(plan) && plan.Rect? && plan.x0 == col * 14 && plan.y0 == row * 8
    ensures plan.w == 14 && plan.h == 8
  {
    Rect(col * 14, row * 8, 14, 8,
         (j, k) => if Bit(GlyphRow(charset, code, j), k / 2) then back else fore)
  }

  /** 40-column text on a II/II+: the ROM holds the glyph the other way round,
      bit 6 first (`b << 1`, then bit 7 of the shifted value), a set bit
      showing `fore`. */
  function Text40PlusPlan(row: int, col: int, fore: Color, back: Color, charset: seq<byte>, code: int): (plan: Plan)
    requires 0 <= row < 24 && 0 <= col < 40
    ensures Fits(plan) && plan.Rect? && plan.x0 == col * 14 && plan.y0 == row * 8
    ensures plan.w == 14 && plan.h == 8
  {
    Rect(col * 14, row * 8, 14, 8,
         (j, k) => if Bit(GlyphRow(charset, code, j), 6 - k / 2) then fore else back)
  }

  /** Monochrome lo-res: `w` half-pixels per line from x0 showing the
      replicated colour nibble bit by bit, white for a set bit. */
  function MonoLoresPlan(row: int, col: int, x0: int, w: int, val: int): (plan: Plan)
    requires 0 <= row < 24 && 0 <= col < 40 && 0 <= val < 256
    requires col * 14 <= x0 && x0 + w <= col * 14 + 14 && 0 <= w
    ensures Fits(plan) && Inside(plan, col * 14, row * 8, 14, 8) && plan.Rect?
  {
    Rect(x0, row * 8, w, 8, (j, k) => if Bit(Replicated(val, j, col), k) then White else Black)
  }

  /** A monochrome lo-res block shows, at half-pixel k of block row j, bit
      (k + 2 * (col & 1)) mod 4 of that row's nibble. */
  lemma MonoLoresPixel(row: int, col: int, x0: int, w: int, val: int, j: int, k: int)
    requires 0 <= row < 24 && 0 <= col < 40 && 0 <= val < 256
    requires col * 14 <= x0 && x0 + w <= col * 14 + 14 && 0 <= k < w
    ensures MonoLoresPlan(row, col, x0, w, val).f(j, k) ==
      (if Bit(Nibble(val, j), (k + (if col % 2 == 1 then 2 else 0)) % 4) then White else Black)
  {
    ReplicatedBit(val, j, col, k);
  }

  /** Colour lo-res: `w` half-pixels per line from x0 in the colour of the
      row's nibble. */
  function ColorLoresPlan(row: int, col: int, x0: int, w: int, palette: int, val: int): (plan: Plan)
    requires 0 <= row < 24 && 0 <= col < 40 && 0 <= val < 256
    requires col * 14 <= x0 && x0 + w <= col * 14 + 14 && 0 <= w
    ensures Fits(plan) && Inside(plan, col * 14, row * 8, 14, 8) && plan.Rect?
  {
    Rect(x0, row * 8, w, 8, (j, k) => Color16(palette, Nibble(val, j)))
  }

  /** Whether a row is drawn in text (or in the text lines of mixed mode). */
  predicate TextRowMode(m: Modes, row: int) {
    m.text || m.hires || (m.mixed && row > 19)
  }

  /** Whether each bank draws one half of a cell: 80-column text, and
      80-column lo-res (AN3 clear). */
  predicate HalfCell(m: Modes, row: int) {
    m.col80 && (TextRowMode(m, row) || !m.an3)
  }

  /** Drawing the same cell twice widens the dirty rectangle once. */
  lemma LoresDirtyTwice(d: Region, idx: int)
    requires 0 <= idx
    ensures LoresDirty(LoresDirty(d, idx), idx) == LoresDirty(d, idx)
  {
  }

  /** The dirty rectangle a blink leaves after its first n bytes: d widened,
      in order, by the cell of each flashing byte among them. */
  function BlinkDirty(d: Region, s0: seq<byte>, n: int): (r: Region)
    requires 0 <= n <= |s0|
    ensures Grows(d, r)
    decreases n
  {
    if n == 0 then d
    else
      var r0 := BlinkDirty(d, s0, n - 1);
      if Flashing(s0[n - 1] as int) then LoresDirty(r0, n - 1) else r0
  }

  /** A blink's dirty rectangle covers the cell of every flashing visible byte. */
  lemma {:induction false} BlinkDirtyCovers(d: Region, s0: seq<byte>, n: int, i: int)
    requires 0 <= i < n <= |s0| && Flashing(s0[i] as int) && Visible(i)
    ensures Covers(BlinkDirty(d, s0, n), RowOfBase(i) * 8, RowOfBase(i) * 8 + 8, ColOf(i) * 14, ColOf(i) * 14 + 14)
    decreases n
  {
    if i < n - 1 {
      BlinkDirtyCovers(d, s0, n - 1, i);
    }
  }

  /** ... and is the least rectangle that does so and contains d: it grows
      by the repainted flashing cells and by nothing else. */
  lemma {:induction false} BlinkDirtyLeast(d: Region, s0: seq<byte>, n: int, q: Region)
    requires 0 <= n <= |s0| && Grows(d, q)
    requires forall i :: 0 <= i < n && Visible(i) && Flashing(s0[i] as int) ==>
      Covers(q, RowOfBase(i) * 8, RowOfBase(i) * 8 + 8, ColOf(i) * 14, ColOf(i) * 14 + 14)
    ensures Grows(BlinkDirty(d, s0, n), q)
    decreases n
  {
    if n > 0 {
      BlinkDirtyLeast(d, s0, n - 1, q);
    }
  }

  /** A cell's box lies in the screen. */
  lemma CellWithinScreen(d0: Region, d: Region, idx: int)
    requires 0 <= idx < 0x400 && Grows(d, Widen(d0, 0, 192, 0, 560))
    ensures Grows(LoresDirty(d, idx), Widen(d0, 0, 192, 0, 560))
  {
    if Visible(idx) {
      var row, col := CellBox(idx);
      assert LoresDirty(d, idx) == Widen(d, row * 8, row * 8 + 8, col * 14, col * 14 + 14);
    }
  }

  /** The first visible cell reaches the screen's top-left corner. */
  lemma FirstCellDirty(d: Region)
    ensures LoresDirty(d, 0).top <= 0 && LoresDirty(d, 0).left <= 0
  {
    FirstCell();
  }

  /** The last visible cell reaches the screen's bottom-right corner. */
  lemma LastCellDirty(d: Region)
    ensures LoresDirty(d, 0x3F7).bottom >= 192 && LoresDirty(d, 0x3F7).right >= 560
  {
    LastCell();
  }

  /** The dirty rectangle of a refresh sweep after its first idx cells: it
      lies between the starting rectangle and that rectangle widened by the
      screen, and reaches a corner once the cell at that corner is drawn. */
  predicate SweepDirty(d0: Region, d: Region, idx: int) {
    Grows(d0, d) && Grows(d, Widen(d0, 0, 192, 0, 560)) &&
    (idx > 0 ==> d.top <= 0 && d.left <= 0) &&
    (idx > 0x3F7 ==> d.bottom >= 192 && d.right >= 560)
  }

  /** Drawing one more cell keeps the sweep's bounds. */
  lemma SweepDirtyStep(d0: Region, d: Region, idx: int)
    requires 0 <= idx < 0x400 && SweepDirty(d0, d, idx)
    ensures SweepDirty(d0, LoresDirty(d, idx), idx + 1)
  {
    CellWithinScreen(d0, d, idx);
    if idx == 0 {
      FirstCellDirty(d);
    } else if idx == 0x3F7 {
      LastCellDirty(d);
    }
  }

  /** A visible offset's row and column lie on the 24 x 40 grid. */
  lemma CellBox(idx: int) returns (row: int, col: int)
    requires 0 <= idx && Visible(idx)
    ensures row == RowOfBase(idx) && col == ColOf(idx)
    ensures 0 <= row < 24 && 0 <= col < 40
    ensures 0 <= row * 8 && row * 8 + 8 <= 192 && 0 <= col * 14 && col * 14 + 14 <= 560
  {
    row, col := RowOfBase(idx), ColOf(idx);
    var off := idx % 256;
    assert ColOf(off) <= off % 0x80 <= off;
  }
}
