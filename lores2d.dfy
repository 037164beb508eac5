/**
 * `LoresPage2D` of the canvas renderer (js/canvas.ts:136-531): one text /
 * lo-res page (1 KiB of main memory, and the same window of auxiliary
 * memory on a IIe), decoded byte by byte into a 560 x 192 image.
 */
module Lores2D {
  import opened Screen
  import opened Glyphs
  import opened ColorTables
  import opened LoresDecode

  /** II/II+ colour text (mixed graphics with text lines): the shifted glyph
      row, complemented over nine bits for inverse characters. */
  function FringeBits(glyph: int, flip: bool): int {
    if flip then 0x1ff - 2 * glyph else 2 * glyph
  }

  /** Step idx of the colour-fringe decoder: a lit bit next to another lit
      bit is white, a lone lit bit takes the artifact colour of its column
      parity (violet on even, green on odd), an unlit bit is black. */
  function FringeColor(b: int, idx: int, col: int, hc: HiresColors): (r: Color)
    ensures !Bit(b, 7 - idx) ==> r == hc.black
    ensures Bit(b, 7 - idx) && (Bit(b, 8 - idx) || Bit(b, 6 - idx)) ==> r == hc.white
    ensures Bit(b, 7 - idx) && !Bit(b, 8 - idx) && !Bit(b, 6 - idx) ==>
      r == if (col + idx) % 2 == 0 then hc.violet else hc.green
  {
    if Bit(b, 7 - idx) then
      (if Bit(b, 8 - idx) || Bit(b, 6 - idx) then hc.white
       else if (col + idx) % 2 == 0 then hc.violet else hc.green)
    else hc.black
  }

  function FringePlan(row: int, col: int, inverse: bool, hc: HiresColors, charset: seq<byte>, code: int): (plan: Plan)
    requires 0 <= row < 24 && 0 <= col < 40
    ensures Fits(plan) && plan.Rect? && plan.x0 == col * 14 && plan.y0 == row * 8
    ensures plan.w == 14 && plan.h == 8
  {
    Rect(col * 14, row * 8, 14, 8,
         (j, k) => FringeColor(FringeBits(GlyphRow(charset, code, j), inverse), k / 2, col, hc))
  }

  /** The block one byte of the page paints, by mode:
      text (or mixed-mode text lines) in 80 or 40 columns, else lo-res
      graphics in 80 or 40 columns; `b0`/`b1` are the main and auxiliary
      bytes at `base` after the store. */
  function CellPlan(m: Modes, e: bool, highColor: bool, blink: bool, charset: seq<byte>,
                    base: int, bank: int, val: int, b0: int, b1: int): (plan: Plan)
    requires 0 <= base < 0x400 && Visible(base)
    requires 0 <= val < 256 && 0 <= b0 < 256 && 0 <= b1 < 256
    ensures Fits(plan) && Inside(plan, ColOf(base) * 14, RowOfBase(base) * 8, 14, 8)
    ensures bank == 0 ==>
              plan.Rect? && plan.y0 == RowOfBase(base) * 8 && plan.h == 8 &&
              plan.x0 == ColOf(base) * 14 + (if HalfCell(m, RowOfBase(base)) then 7 else 0) &&
              plan.x0 + plan.w == ColOf(base) * 14 + 14
    ensures bank != 0 && HalfCell(m, RowOfBase(base)) ==>
              plan.Rect? && plan.y0 == RowOfBase(base) * 8 &&
              plan.h == 8 && plan.x0 == ColOf(base) * 14 && plan.w == 7
  {
    var row, col := RowOfBase(base), ColOf(base);
    if TextRowMode(m, row) then
      if m.col80 then
        var inverse := CheckInverse(e, m.col80, m.altChar, blink, val);
        Text80Plan(row, col, bank, inverse, charset, Unflash(val, m.altChar))
      else
        var inverse := CheckInverse(e, m.col80, m.altChar, blink, b0);
        var code := Unflash(b0, m.altChar);
        var fore := if highColor then Color16(m.palette, b1 / 16) else Fore(inverse);
        var back := if highColor then Color16(m.palette, b1 % 16) else Back(inverse);
        if e then Text40Plan(row, col, fore, back, charset, code)
        else if m.mixed && !m.text && !m.mono then
          FringePlan(row, col, inverse, SetColors(m.palette), charset, code)
        else Text40PlusPlan(row, col, fore, back, charset, code)
    else if m.col80 && !m.an3 then
      var x0 := col * 14 + (if bank != 0 then 0 else 7);
      if m.mono then MonoLoresPlan(row, col, x0, 7, val)
      else ColorLoresPlan(row, col, x0, 7, m.palette, if bank == 1 then Swizzle(val) else val)
    else if bank == 0 then
      if m.mono then MonoLoresPlan(row, col, col * 14, 14, val)
      else ColorLoresPlan(row, col, col * 14, 14, m.palette, val)
    else NoDraw
  }

  /** The 40-column colour lo-res loop as the source writes it: per block row,
      three `_drawPixel` steps (6 half-pixels) and then `offset += 546 * 4`,
      so each line paints 6 of its 14 half-pixels and the next line starts
      8 half-pixels further left. */
  function AsWrittenBlockPixel(row: int, col: int, palette: int, val: int, q: int, was: Color): Color
    requires 0 <= val < 256
  {
    var start := row * 8 * W + col * 14;
    if start <= q < start + 8 * 552 && (q - start) % 552 < 6
    then Color16(palette, Nibble(val, (q - start) / 552))
    else was
  }

  method PaintBlockAsWritten(px: array<Color>, row: int, col: int, palette: int, val: int)
    requires px.Length == N && 0 <= row < 24 && 0 <= col < 40 && 0 <= val < 256
    modifies px
    ensures forall q :: 0 <= q < N ==> px[q] == AsWrittenBlockPixel(row, col, palette, val, q, old(px[q]))
  {
    var start := row * 8 * W + col * 14;
    var offset := start;
    var jdx := 0;
    while jdx < 8
      invariant 0 <= jdx <= 8 && offset == start + 552 * jdx
      invariant forall q :: 0 <= q < N ==>
                  px[q] == (if q < start + 552 * jdx then AsWrittenBlockPixel(row, col, palette, val, q, old(px[q]))
                            else old(px[q]))
    {
      var color := Color16(palette, Nibble(val, jdx));
      var idx := 0;
      while idx < 3
        invariant 0 <= idx <= 3 && offset == start + 552 * jdx + 2 * idx
        invariant forall q :: 0 <= q < N ==>
                    px[q] == (if q < start + 552 * jdx then AsWrittenBlockPixel(row, col, palette, val, q, old(px[q]))
                              else if q < offset then color
                              else old(px[q]))
      {
        px[offset] := color;
        px[offset + 1] := color;
        offset := offset + 2;
        idx := idx + 1;
      }
      offset := offset + 546;
      jdx := jdx + 1;
      forall q | 0 <= q < N && start + 552 * (jdx - 1) <= q < start + 552 * jdx
        ensures px[q] == AsWrittenBlockPixel(row, col, palette, val, q, old(px[q]))
      {
        DivMod(q - start, 552, jdx - 1, q - start - 552 * (jdx - 1));
      }
    }
  }

  /** The loop as written draws outside its own cell: the block of offset 0
      (row 0, column 0) paints pixel 552 of line 0, which belongs to column 39. */
  lemma AsWrittenBlockStrays(palette: int, val: int, was: Color)
    requires 0 <= val < 256
    ensures AsWrittenBlockPixel(0, 0, palette, val, 552, was) == Color16(palette, val % 16)
    ensures LoresOwner(552) == 39
  {
    TopLineOwner(552);
    assert Nibble(val, 1) == val % 16;
  }

  /** ... and leaves most of its own cell undrawn: pixel 6 of line 0 belongs
      to offset 0 and keeps its old colour. */
  lemma AsWrittenBlockMisses(palette: int, val: int, was: Color)
    requires 0 <= val < 256
    ensures AsWrittenBlockPixel(0, 0, palette, val, 6, was) == was && LoresOwner(6) == 0
  {
    TopLineOwner(6);
  }

  /** The corrected block paints all 14 x 8 half-pixels of its cell, each in
      the colour of its row's nibble, and nothing outside the cell. */
  lemma ColorBlockCoversCell(row: int, col: int, palette: int, val: int, p: int, was: Color)
    requires 0 <= row < 24 && 0 <= col < 40 && 0 <= val < 256 && 0 <= p < N
    ensures InCell(p, row, col) ==>
      PlanPixel(ColorLoresPlan(row, col, col * 14, 14, palette, val), p, was) ==
      Color16(palette, Nibble(val, p / W - row * 8))
    ensures !InCell(p, row, col) ==>
      PlanPixel(ColorLoresPlan(row, col, col * 14, 14, palette, val), p, was) == was
  {
  }

  /** `_write`'s drawing for a byte stored at any window offset: nothing
      outside the 24 x 40 visible cells. */
  function BytePlan(m: Modes, e: bool, highColor: bool, blink: bool, charset: seq<byte>,
                    base: int, bank: int, val: int, b0: int, b1: int): (plan: Plan)
    requires 0 <= base < 0x400 && 0 <= val < 256 && 0 <= b0 < 256 && 0 <= b1 < 256
    ensures Fits(plan)
    ensures Visible(base) ==> Inside(plan, ColOf(base) * 14, RowOfBase(base) * 8, 14, 8)
    ensures !Visible(base) ==> plan == NoDraw
  {
    if Visible(base) then CellPlan(m, e, highColor, blink, charset, base, bank, val, b0, b1)
    else NoDraw
  }

  /** A page's drawing state: the flags `_write` reads besides the modes. */
  datatype Look = Look(e: bool, highColor: bool, blink: bool, charset: seq<byte>)

  /** The plan of main-bank (bank 0) or auxiliary (bank 1) byte at `base`
      over memory s0/s1. */
  function PlanOf(m: Modes, look: Look, s0: seq<byte>, s1: seq<byte>, base: int, bank: int): (plan: Plan)
    requires |s0| == 0x400 && 0 <= base < 0x400
    ensures Fits(plan)
  {
    var v := if bank == 0 then s0[base] as int else At(s1, base);
    BytePlan(m, look.e, look.highColor, look.blink, look.charset, base, bank, v, s0[base] as int, At(s1, base))
  }

  /** Pixel p after a full redraw over memory s0/s1: the main byte of p's
      cell, then in 80 columns the auxiliary byte, drawn over `was`. */
  function RedrawPixel(m: Modes, look: Look, s0: seq<byte>, s1: seq<byte>, p: int, was: Color): Color
    requires |s0| == 0x400 && 0 <= p < N
  {
    OwnerRange(p);
    RedrawCellPixel(m, look, s0, s1, LoresOwner(p), p, was)
  }

  /** Pixel p after the bytes at window offset `idx` are redrawn: the main
      byte, then in 80 columns the auxiliary byte. */
  function RedrawCellPixel(m: Modes, look: Look, s0: seq<byte>, s1: seq<byte>, idx: int, p: int, was: Color): Color
    requires |s0| == 0x400 && 0 <= idx < 0x400
  {
    var c := PlanPixel(PlanOf(m, look, s0, s1, idx, 0), p, was);
    if m.col80 then PlanPixel(PlanOf(m, look, s0, s1, idx, 1), p, c) else c
  }

  /** Pixel p after a blink pass: redrawn when its cell holds a flashing
      main-bank code, untouched otherwise. */
  function BlinkPixel(m: Modes, look: Look, s0: seq<byte>, s1: seq<byte>, p: int, was: Color): Color
    requires |s0| == 0x400 && 0 <= p < N
  {
    OwnerRange(p);
    var a := LoresOwner(p);
    if Flashing(s0[a] as int) then PlanPixel(PlanOf(m, look, s0, s1, a, 0), p, was) else was
  }

  /** A refresh repaints the whole image: every pixel's redrawn colour is
      independent of what the image held before, in every mode. */
  lemma RedrawForgetsOldImage(m: Modes, look: Look, s0: seq<byte>, s1: seq<byte>, p: int, w1: Color, w2: Color)
    requires |s0| == 0x400 && 0 <= p < N
    ensures RedrawPixel(m, look, s0, s1, p, w1) == RedrawPixel(m, look, s0, s1, p, w2)
  {
    OwnerRange(p);
    var a := LoresOwner(p);
    var row, col := RowOfBase(a), ColOf(a);
    var p0 := PlanOf(m, look, s0, s1, a, 0);
    assert InRect(p, col * 14, row * 8, 14, 8);
    if HalfCell(m, row) {
      var p1 := PlanOf(m, look, s0, s1, a, 1);
      assert p1.Rect? && p1.x0 == col * 14 && p1.w == 7;
      assert InRect(p, p0.x0, p0.y0, p0.w, p0.h) || InRect(p, p1.x0, p1.y0, p1.w, p1.h);
    } else {
      assert InRect(p, p0.x0, p0.y0, p0.w, p0.h);
    }
  }

  class LoresPage2D {
    const e: bool
    const pageNo: int
    const charset: seq<byte>
    /** `_buffer[0]` and `_buffer[1]`: the page's window of main and of
        auxiliary memory; the auxiliary one is empty on a machine without it. */
    const buf0: array<byte>
    const buf1: array<byte>
    /** The RGB of the page's `imageData`. */
    const pixels: array<Color>
    var dirty: Region
    var refreshing: bool
    var blink: bool
    var highColorTextMode: bool

    predicate Valid() {
      buf0.Length == 0x400 && (buf1.Length == 0x400 || buf1.Length == 0) && buf0 != buf1 &&
      pixels.Length == N && (pageNo == 1 || pageNo == 2)
    }

    predicate HasAux() {
      buf1.Length == 0x400
    }

    function Bank(bank: int): array<byte> {
      if bank == 0 then buf0 else buf1
    }

    function Looks(): Look
      reads this`highColorTextMode, this`blink
    {
      Look(e, highColorTextMode, blink, charset)
    }

    constructor (e: bool, pageNo: int, charset: seq<byte>, main: array<byte>, aux: array<byte>)
      requires main.Length == 0x400 && (aux.Length == 0x400 || aux.Length == 0) && main != aux
      requires pageNo == 1 || pageNo == 2
      ensures Valid() && this.e == e && this.pageNo == pageNo && this.charset == charset
      ensures buf0 == main && buf1 == aux && fresh(pixels)
      ensures dirty == NotDirty && !refreshing && !blink && !highColorTextMode
      ensures forall p :: 0 <= p < N ==> pixels[p] == White
    {
      this.e := e;
      this.pageNo := pageNo;
      this.charset := charset;
      buf0 := main;
      buf1 := aux;
      pixels := new Color[N](_ => White);
      dirty := NotDirty;
      refreshing := false;
      blink := false;
      highColorTextMode := false;
    }

    /** The bus pages the page answers to: four pages from 4 * pageNo. */
    function Start(): (s: int)
      requires Valid()
      ensures s * 256 == 0x400 * pageNo
    {
      0x04 * pageNo
    }

    function End(): (t: int)
      requires Valid()
      ensures t == Start() + 3
    {
      0x04 * pageNo + 0x03
    }

    /** `_read`: the byte at the address's offset in the 1 KiB window; the
        window repeats every four pages. */
    function Read(page: int, off: int, bank: int): (v: byte)
      reads buf0, buf1
      requires Valid() && 0 <= page && 0 <= off < 256 && (bank == 0 || bank == 1)
      requires bank == 1 ==> HasAux()
      ensures v == Bank(bank)[Offset(page, off, 0x400)]
    {
      Bank(bank)[Offset(page, off, 0x400)]
    }

    /** `_write`: store the byte and, unless it is unchanged and no refresh
        is under way, redraw its cell and widen the dirty rectangle. */
    method Write(page: int, off: int, val: byte, bank: int, m: Modes)
      requires Valid() && 0 <= page < 256 && 0 <= off < 256 && (bank == 0 || bank == 1)
      requires bank == 1 ==> HasAux()
      modifies this`dirty, pixels, Bank(bank)
      ensures var base := Offset(page, off, 0x400);
        Bank(bank)[..] == old(Bank(bank)[..])[base := val] && Read(page, off, bank) == val
      ensures var base := Offset(page, off, 0x400);
        old(Bank(bank)[base]) == val && !refreshing ==>
          dirty == old(dirty) && pixels[..] == old(pixels[..])
      ensures var base := Offset(page, off, 0x400);
        old(Bank(bank)[base]) != val || refreshing ==>
          dirty == LoresDirty(old(dirty), base) &&
          forall p :: 0 <= p < N ==> pixels[p] == PlanPixel(PlanOf(m, Looks(), buf0[..], buf1[..], base, bank), p, old(pixels[p]))
    {
      var base := Offset(page, off, 0x400);
      var buffer := Bank(bank);
      if buffer[base] == val && !refreshing {
        return;
      }
      buffer[base] := val;
      Draw(page, off, bank, m);
    }

    /** The drawing half of `_write`: the cell of the byte just stored, from
        its bus page and offset, and its box added to the dirty rectangle. */
    method Draw(page: int, off: int, bank: int, m: Modes)
      requires Valid() && 0 <= page < 256 && 0 <= off < 256 && (bank == 0 || bank == 1)
      modifies this`dirty, pixels
      ensures var base := Offset(page, off, 0x400);
        dirty == LoresDirty(old(dirty), base) &&
        forall p :: 0 <= p < N ==> pixels[p] == PlanPixel(PlanOf(m, Looks(), buf0[..], buf1[..], base, bank), p, old(pixels[p]))
    {
      var base := Offset(page, off, 0x400);
      var col := ColOf(base);
      var row := TextRow(page, off);
      DrawTarget(m, Looks(), buf0[..], buf1[..], page, off, bank, dirty);
      if row < 24 && col < 40 {
        dirty := Widen(dirty, row * 8, row * 8 + 8, col * 14, col * 14 + 14);
        var b1 := if buf1.Length > 0 then buf1[base] as int else 0;
        assert b1 == At(buf1[..], base);
        var v := if bank == 0 then buf0[base] as int else b1;
        var plan := CellPlan(m, e, highColorTextMode, blink, charset, base, bank, v,
                             buf0[base] as int, b1);
        Paint(pixels, plan);
      }
    }

    /** The body of `refresh`'s loop: the byte at `addr` of the main bank
        and, in 80 columns, of the auxiliary bank written back in place. */
    method RedrawByte(addr: int, m: Modes)
      requires Valid() && (m.col80 ==> HasAux()) && refreshing
      requires 0x400 * pageNo <= addr < 0x400 * pageNo + 0x400
      modifies this`dirty, pixels, buf0, buf1
      ensures buf0[..] == old(buf0[..]) && buf1[..] == old(buf1[..])
      ensures var idx := addr - 0x400 * pageNo;
        dirty == LoresDirty(old(dirty), idx) &&
        forall p :: 0 <= p < N ==> pixels[p] == RedrawCellPixel(m, Looks(), buf0[..], buf1[..], idx, p, old(pixels[p]))
    {
      var idx := addr - 0x400 * pageNo;
      ghost var s0, s1 := buf0[..], buf1[..];
      WindowAddress(addr, pageNo, idx);
      ghost var dirty0 := dirty;
      Write(addr / 256, addr % 256, buf0[idx], 0, m);
      assert buf0[..] == s0 && buf1[..] == s1;
      ghost var mid := pixels[..];
      if m.col80 {
        ghost var dirty1 := dirty;
        Write(addr / 256, addr % 256, buf1[idx], 1, m);
        assert buf0[..] == s0 && buf1[..] == s1;
        LoresDirtyTwice(dirty0, idx);
      }
    }

    /** `refresh`: re-derive the high-colour text flag and redraw every byte
        of both banks (the auxiliary one only in 80 columns). */
    method Refresh(m: Modes)
      requires Valid() && (m.col80 ==> HasAux())
      modifies this`highColorTextMode, this`refreshing, this`dirty, pixels, buf0, buf1
      ensures highColorTextMode == (!m.an3 && m.text && !m.col80) && !refreshing
      ensures buf0[..] == old(buf0[..]) && buf1[..] == old(buf1[..])
      ensures dirty == Widen(old(dirty), 0, 192, 0, 560)
      ensures forall p :: 0 <= p < N ==> pixels[p] == RedrawPixel(m, Looks(), buf0[..], buf1[..], p, old(pixels[p]))
    {
      highColorTextMode := !m.an3 && m.text && !m.col80;
      refreshing := true;
      ghost var s0, s1 := buf0[..], buf1[..];
      ghost var d0 := dirty;
      ghost var look := Looks();
      var addr := 0x400 * pageNo;
      var idx := 0;
      while idx < 0x400
        invariant 0 <= idx <= 0x400 && addr == 0x400 * pageNo + idx && refreshing
        invariant Looks() == look && buf0[..] == s0 && buf1[..] == s1
        invariant forall p :: 0 <= p < N ==>
          pixels[p] == if LoresOwner(p) < idx then RedrawPixel(m, look, s0, s1, p, old(pixels[p])) else old(pixels[p])
        invariant SweepDirty(d0, dirty, idx)
      {
        ghost var before := pixels[..];
        ghost var dirty0 := dirty;
        RedrawByte(addr, m);
        forall p | 0 <= p < N
          ensures pixels[p] == if LoresOwner(p) < idx + 1 then RedrawPixel(m, look, s0, s1, p, old(pixels[p])) else old(pixels[p])
        {
          RedrawStep(m, look, s0, s1, idx, p, old(pixels[p]), before[p], pixels[p]);
        }
        SweepDirtyStep(d0, dirty0, idx);
        idx := idx + 1;
        addr := addr + 1;
      }
      forall p | 0 <= p < N
        ensures pixels[p] == RedrawPixel(m, look, s0, s1, p, old(pixels[p]))
      {
        OwnerRange(p);
      }
      refreshing := false;
    }

    /** `blink`: flip the blink phase and redraw the main-bank bytes holding
        flashing codes. */
    method Blink(m: Modes)
      requires Valid()
      modifies this`blink, this`refreshing, this`dirty, pixels, buf0
      ensures blink == !old(blink) && !refreshing && buf0[..] == old(buf0[..])
      ensures Grows(old(dirty), dirty)
      ensures dirty == BlinkDirty(old(dirty), old(buf0[..]), 0x400)
      ensures forall p :: 0 <= p < N ==> pixels[p] == BlinkPixel(m, Looks(), buf0[..], buf1[..], p, old(pixels[p]))
    {
      refreshing := true;
      blink := !blink;
      ghost var s0, s1 := buf0[..], buf1[..];
      ghost var look := Looks();
      var addr := 0x400 * pageNo;
      var idx := 0;
      while idx < 0x400
        invariant 0 <= idx <= 0x400 && addr == 0x400 * pageNo + idx && refreshing
        invariant Looks() == look && buf0[..] == s0 && buf1[..] == s1
        invariant forall p :: 0 <= p < N ==>
          pixels[p] == if LoresOwner(p) < idx then BlinkPixel(m, look, s0, s1, p, old(pixels[p])) else old(pixels[p])
        invariant dirty == BlinkDirty(old(dirty), s0, idx)
      {
        ghost var before := pixels[..];
        BlinkByte(addr, m);
        ghost var after := pixels[..];
        forall p | 0 <= p < N
          ensures pixels[p] == if LoresOwner(p) < idx + 1 then BlinkPixel(m, look, s0, s1, p, old(pixels[p])) else old(pixels[p])
        {
          BlinkStep(m, look, s0, s1, idx, p, old(pixels[p]), before[p], after[p]);
        }
        idx := idx + 1;
        addr := addr + 1;
      }
      forall p | 0 <= p < N
        ensures pixels[p] == BlinkPixel(m, look, s0, s1, p, old(pixels[p]))
      {
        OwnerRange(p);
      }
      refreshing := false;
    }

    /** One step of `blink`: the main-bank byte at `addr` is rewritten in
        place when it holds a flashing code, and left alone otherwise. */
    method BlinkByte(addr: int, m: Modes)
      requires Valid() && refreshing
      requires 0x400 * pageNo <= addr < 0x400 * pageNo + 0x400
      modifies this`dirty, pixels, buf0
      ensures buf0[..] == old(buf0[..])
      ensures var idx := addr - 0x400 * pageNo;
        dirty == (if Flashing(buf0[idx] as int) then LoresDirty(old(dirty), idx) else old(dirty)) &&
        forall p :: 0 <= p < N ==>
          pixels[p] == if Flashing(buf0[idx] as int)
                       then PlanPixel(PlanOf(m, Looks(), buf0[..], buf1[..], idx, 0), p, old(pixels[p]))
                       else old(pixels[p])
    {
      var idx := addr - 0x400 * pageNo;
      var b := buf0[idx];
      if (b as int / 64) % 4 == 1 {
        WindowAddress(addr, pageNo, idx);
        Write(addr / 256, addr % 256, buf0[idx], 0, m);
      }
    }

    /** `getText`: the screen as 24 trimmed lines, 80 columns wide on a IIe in
        80-column mode. */
    method GetText(m: Modes) returns (s: string)
      requires Valid()
      ensures s == TextDump(e && m.col80, e, buf0[..], buf1[..])
    {
      s := ScreenText(e && m.col80, e, buf0, buf1);
    }
  }

  /** What `_write` draws for the byte at a bus page and offset: its text row
      and column decide visibility, and the cell's box and plan are those of
      the window offset. */
  lemma DrawTarget(m: Modes, look: Look, s0: seq<byte>, s1: seq<byte>, page: int, off: int, bank: int, d: Region)
    requires |s0| == 0x400 && 0 <= page && 0 <= off < 256
    ensures var base := Offset(page, off, 0x400);
      var row, col := TextRow(page, off), ColOf(base);
      ((row < 24 && col < 40) <==> Visible(base)) &&
      (Visible(base) ==>
        LoresDirty(d, base) == Widen(d, row * 8, row * 8 + 8, col * 14, col * 14 + 14) &&
        PlanOf(m, look, s0, s1, base, bank) ==
          CellPlan(m, look.e, look.highColor, look.blink, look.charset, base, bank,
                   if bank == 0 then s0[base] as int else At(s1, base), s0[base] as int, At(s1, base))) &&
      (!Visible(base) ==> LoresDirty(d, base) == d && PlanOf(m, look, s0, s1, base, bank) == NoDraw)
  {
    WindowRow(page, off);
  }

  /** One step of the refresh loop at one pixel: after both banks' bytes at
      `idx` are drawn, the pixels owned by offsets up to `idx` hold their
      redrawn colour and the rest are untouched. */
  lemma RedrawStep(m: Modes, look: Look, s0: seq<byte>, s1: seq<byte>, idx: int, p: int,
                   o: Color, b: Color, a: Color)
    requires |s0| == 0x400 && 0 <= idx < 0x400 && 0 <= p < N
    requires b == if LoresOwner(p) < idx then RedrawPixel(m, look, s0, s1, p, o) else o
    requires a == RedrawCellPixel(m, look, s0, s1, idx, p, b)
    ensures a == if LoresOwner(p) < idx + 1 then RedrawPixel(m, look, s0, s1, p, o) else o
  {
    OwnerRange(p);
    if Visible(idx) {
      LoresCellOwner(idx, p);
    }
  }

  /** One step of the blink loop at one pixel. */
  lemma BlinkStep(m: Modes, look: Look, s0: seq<byte>, s1: seq<byte>, idx: int, p: int,
                  o: Color, b: Color, a: Color)
    requires |s0| == 0x400 && 0 <= idx < 0x400 && 0 <= p < N
    requires b == if LoresOwner(p) < idx then BlinkPixel(m, look, s0, s1, p, o) else o
    requires a == if Flashing(s0[idx] as int) then PlanPixel(PlanOf(m, look, s0, s1, idx, 0), p, b) else b
    ensures a == if LoresOwner(p) < idx + 1 then BlinkPixel(m, look, s0, s1, p, o) else o
  {
    OwnerRange(p);
    if Visible(idx) {
      LoresCellOwner(idx, p);
    }
  }

}
