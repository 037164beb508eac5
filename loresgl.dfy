/**
 * `LoresPageGL` of the WebGL renderer (js/gl.ts:33-388): the same 1 KiB
 * text / lo-res window as the canvas page, decoded into a monochrome
 * 560 x 192 image that a shader later colours. Lo-res is always drawn as
 * its bit pattern, 40-column text only from the main bank, and there is
 * no colour text or colour fringing.
 */
module LoresGL {
  import opened Screen
  import opened Glyphs
  import opened LoresDecode

  /** The page's own drawing state: the IIe flag, the blink phase and the
      character ROM. */
  datatype GlLook = GlLook(e: bool, blink: bool, charset: seq<byte>)

  /** The block one byte paints in its visible cell: text (or the text lines
      of mixed mode) in 80 columns per bank or in 40 columns from the main
      bank, else the lo-res bit pattern in 80 columns per bank (AN3 clear)
      or in 40 columns from the main bank. */
  function GlCellPlan(m: Modes, look: GlLook, base: int, bank: int, val: int, b0: int): (plan: Plan)
    requires 0 <= base < 0x400 && Visible(base) && 0 <= val < 256 && 0 <= b0 < 256
    ensures Fits(plan) && Inside(plan, ColOf(base) * 14, RowOfBase(base) * 8, 14, 8)
    ensures bank == 0 ==>
              plan.Rect? && plan.y0 == RowOfBase(base) * 8 && plan.h == 8 &&
              plan.x0 == ColOf(base) * 14 + (if HalfCell(m, RowOfBase(base)) then 7 else 0) &&
              plan.x0 + plan.w == ColOf(base) * 14 + 14
    ensures bank != 0 && HalfCell(m, RowOfBase(base)) ==>
              plan.Rect? && plan.y0 == RowOfBase(base) * 8 &&
              plan.h == 8 && plan.x0 == ColOf(base) * 14 && plan.w == 7
    ensures bank != 0 && !m.col80 ==> plan == NoDraw
  {
    var row, col := RowOfBase(base), ColOf(base);
    if TextRowMode(m, row) then
      if m.col80 then
        var inverse := CheckInverse(look.e, m.col80, m.altChar, look.blink, val);
        Text80Plan(row, col, bank, inverse, look.charset, Unflash(val, m.altChar))
      else if bank == 0 then
        var inverse := CheckInverse(look.e, m.col80, m.altChar, look.blink, b0);
        var code := Unflash(b0, m.altChar);
        if look.e then Text40Plan(row, col, Fore(inverse), Back(inverse), look.charset, code)
        else Text40PlusPlan(row, col, Fore(inverse), Back(inverse), look.charset, code)
      else NoDraw
    else if m.col80 && !m.an3 then
      MonoLoresPlan(row, col, col * 14 + (if bank != 0 then 0 else 7), 7, val)
    else if bank == 0 then
      MonoLoresPlan(row, col, col * 14, 14, val)
    else NoDraw
  }

  /** The plan of the main-bank (0) or auxiliary (1) byte at window offset
      `base` over memory s0/s1; an offset outside the visible cells draws
      nothing. */
  function PlanOf(m: Modes, look: GlLook, s0: seq<byte>, s1: seq<byte>, base: int, bank: int): (plan: Plan)
    requires |s0| == 0x400 && 0 <= base < 0x400
    ensures Fits(plan)
    ensures !Visible(base) ==> plan == NoDraw
  {
    if Visible(base) then
      GlCellPlan(m, look, base, bank, if bank == 0 then s0[base] as int else At(s1, base), s0[base] as int)
    else NoDraw
  }

  /** Pixel p after the bytes at window offset `idx` are redrawn: the main
      byte, then in 80 columns the auxiliary byte. */
  function RedrawCellPixel(m: Modes, look: GlLook, s0: seq<byte>, s1: seq<byte>, idx: int, p: int, was: Color): Color
    requires |s0| == 0x400 && 0 <= idx < 0x400
  {
    var c := PlanPixel(PlanOf(m, look, s0, s1, idx, 0), p, was);
    if m.col80 then PlanPixel(PlanOf(m, look, s0, s1, idx, 1), p, c) else c
  }

  /** Pixel p after a full redraw: the bytes of the cell that owns it. */
  function RedrawPixel(m: Modes, look: GlLook, s0: seq<byte>, s1: seq<byte>, p: int, was: Color): Color
    requires |s0| == 0x400 && 0 <= p < N
  {
    OwnerRange(p);
    RedrawCellPixel(m, look, s0, s1, LoresOwner(p), p, was)
  }

  /** Pixel p after a blink pass: redrawn when its cell holds a flashing
      main-bank code. */
  function BlinkPixel(m: Modes, look: GlLook, s0: seq<byte>, s1: seq<byte>, p: int, was: Color): Color
    requires |s0| == 0x400 && 0 <= p < N
  {
    OwnerRange(p);
    var a := LoresOwner(p);
    if Flashing(s0[a] as int) then PlanPixel(PlanOf(m, look, s0, s1, a, 0), p, was) else was
  }

  /** A refresh repaints the whole image: in every mode the main byte, or
      the two banks' halves in 80 columns, cover each cell, so no pixel
      keeps its old colour. */
  lemma RedrawForgetsOldImage(m: Modes, look: GlLook, s0: seq<byte>, s1: seq<byte>, p: int, w1: Color, w2: Color)
    requires |s0| == 0x400 && 0 <= p < N
    ensures RedrawPixel(m, look, s0, s1, p, w1) == RedrawPixel(m, look, s0, s1, p, w2)
  {
    OwnerRange(p);
    var a := LoresOwner(p);
    var row, col := RowOfBase(a), ColOf(a);
    var p0 := PlanOf(m, look, s0, s1, a, 0);
    assert InRect(p, col * 14, row * 8, 14, 8);
    if HalfCell(m, row) {
      var p1 := PlanOf(m, look, s0, s1, a, 1);
      assert p1.Rect? && p1.x0 == col * 14 && p1.w == 7;
      assert InRect(p, p0.x0, p0.y0, p0.w, p0.h) || InRect(p, p1.x0, p1.y0, p1.w, p1.h);
    } else {
      assert InRect(p, p0.x0, p0.y0, p0.w, p0.h);
    }
  }

  /** In 40 columns the auxiliary bank paints nothing: a write there only
      widens the dirty rectangle. */
  lemma AuxSilentIn40(m: Modes, look: GlLook, s0: seq<byte>, s1: seq<byte>, base: int, p: int, was: Color)
    requires |s0| == 0x400 && 0 <= base < 0x400 && !m.col80
    ensures PlanPixel(PlanOf(m, look, s0, s1, base, 1), p, was) == was
  {
  }

  class LoresPageGL {
    const e: bool
    const pageNo: int
    const charset: seq<byte>
    /** `_buffer[0]` and `_buffer[1]`: the window of main and of auxiliary
        memory; the auxiliary one is empty on a machine without it. */
    const buf0: array<byte>
    const buf1: array<byte>
    /** The RGB of the page's `imageData`. */
    const pixels: array<Color>
    var dirty: Region
    var refreshing: bool
    var blink: bool

    predicate Valid() {
      buf0.Length == 0x400 && (buf1.Length == 0x400 || buf1.Length == 0) && buf0 != buf1 &&
      pixels.Length == N && (pageNo == 1 || pageNo == 2)
    }

    predicate HasAux() {
      buf1.Length == 0x400
    }

    function Bank(bank: int): array<byte> {
      if bank == 0 then buf0 else buf1
    }

    function Looks(): GlLook
      reads this`blink
    {
      GlLook(e, blink, charset)
    }

    constructor (e: bool, pageNo: int, charset: seq<byte>, main: array<byte>, aux: array<byte>)
      requires main.Length == 0x400 && (aux.Length == 0x400 || aux.Length == 0) && main != aux
      requires pageNo == 1 || pageNo == 2
      ensures Valid() && this.e == e && this.pageNo == pageNo && this.charset == charset
      ensures buf0 == main && buf1 == aux && fresh(pixels)
      ensures dirty == NotDirty && !refreshing && !blink
      ensures forall p :: 0 <= p < N ==> pixels[p] == White
    {
      this.e := e;
      this.pageNo := pageNo;
      this.charset := charset;
      buf0 := main;
      buf1 := aux;
      pixels := new Color[N](_ => White);
      dirty := NotDirty;
      refreshing := false;
      blink := false;
    }

    /** The bus pages the page answers to: four pages from 4 * pageNo. */
    function Start(): (s: int)
      requires Valid()
      ensures s * 256 == 0x400 * pageNo
    {
      0x04 * pageNo
    }

    function End(): (t: int)
      requires Valid()
      ensures t == Start() + 3
    {
      0x04 * pageNo + 0x03
    }

    /** `_read`: the byte at the address's offset in the 1 KiB window. */
    function Read(page: int, off: int, bank: int): (v: byte)
      reads buf0, buf1
      requires Valid() && 0 <= page && 0 <= off < 256 && (bank == 0 || bank == 1)
      requires bank == 1 ==> HasAux()
      ensures v == Bank(bank)[Offset(page, off, 0x400)]
    {
      Bank(bank)[Offset(page, off, 0x400)]
    }

    /** `_write`: store the byte and, unless it is unchanged and no refresh
        is under way, redraw its cell and widen the dirty rectangle. */
    method Write(page: int, off: int, val: byte, bank: int, m: Modes)
      requires Valid() && 0 <= page < 256 && 0 <= off < 256 && (bank == 0 || bank == 1)
      requires bank == 1 ==> HasAux()
      modifies this`dirty, pixels, Bank(bank)
      ensures var base := Offset(page, off, 0x400);
        Bank(bank)[..] == old(Bank(bank)[..])[base := val] && Read(page, off, bank) == val
      ensures var base := Offset(page, off, 0x400);
        old(Bank(bank)[base]) == val && !refreshing ==>
          dirty == old(dirty) && pixels[..] == old(pixels[..])
      ensures var base := Offset(page, off, 0x400);
        old(Bank(bank)[base]) != val || refreshing ==>
          dirty == LoresDirty(old(dirty), base) &&
          forall p :: 0 <= p < N ==> pixels[p] == PlanPixel(PlanOf(m, Looks(), buf0[..], buf1[..], base, bank), p, old(pixels[p]))
    {
      var base := Offset(page, off, 0x400);
      var buffer := Bank(bank);
      if buffer[base] == val && !refreshing {
        return;
      }
      buffer[base] := val;
      Draw(page, off, bank, m);
    }

    /** The drawing half of `_write`, for the byte just stored. */
    method Draw(page: int, off: int, bank: int, m: Modes)
      requires Valid() && 0 <= page < 256 && 0 <= off < 256 && (bank == 0 || bank == 1)
      modifies this`dirty, pixels
      ensures var base := Offset(page, off, 0x400);
        dirty == LoresDirty(old(dirty), base) &&
        forall p :: 0 <= p < N ==> pixels[p] == PlanPixel(PlanOf(m, Looks(), buf0[..], buf1[..], base, bank), p, old(pixels[p]))
    {
      var base := Offset(page, off, 0x400);
      var col := ColOf(base);
      var row := TextRow(page, off);
      GlDrawTarget(m, Looks(), buf0[..], buf1[..], page, off, bank, dirty);
      if row < 24 && col < 40 {
        dirty := Widen(dirty, row * 8, row * 8 + 8, col * 14, col * 14 + 14);
        var b1 := if buf1.Length > 0 then buf1[base] as int else 0;
        assert b1 == At(buf1[..], base);
        var v := if bank == 0 then buf0[base] as int else b1;
        var plan := GlCellPlan(m, Looks(), base, bank, v, buf0[base] as int);
        Paint(pixels, plan);
      }
    }

    /** The body of `refresh`'s loop: the byte at `addr` of the main bank
        and, in 80 columns, of the auxiliary bank written back in place. */
    method RedrawByte(addr: int, m: Modes)
      requires Valid() && (m.col80 ==> HasAux()) && refreshing
      requires 0x400 * pageNo <= addr < 0x400 * pageNo + 0x400
      modifies this`dirty, pixels, buf0, buf1
      ensures buf0[..] == old(buf0[..]) && buf1[..] == old(buf1[..])
      ensures var idx := addr - 0x400 * pageNo;
        dirty == LoresDirty(old(dirty), idx) &&
        forall p :: 0 <= p < N ==> pixels[p] == RedrawCellPixel(m, Looks(), buf0[..], buf1[..], idx, p, old(pixels[p]))
    {
      var idx := addr - 0x400 * pageNo;
      ghost var s0, s1 := buf0[..], buf1[..];
      WindowAddress(addr, pageNo, idx);
      ghost var dirty0 := dirty;
      Write(addr / 256, addr % 256, buf0[idx], 0, m);
      assert buf0[..] == s0 && buf1[..] == s1;
      if m.col80 {
        Write(addr / 256, addr % 256, buf1[idx], 1, m);
        assert buf0[..] == s0 && buf1[..] == s1;
        LoresDirtyTwice(dirty0, idx);
      }
    }

    /** `refresh`: redraw every byte of the main bank and, in 80 columns,
        of the auxiliary bank. */
    method Refresh(m: Modes)
      requires Valid() && (m.col80 ==> HasAux())
      modifies this`refreshing, this`dirty, pixels, buf0, buf1
      ensures !refreshing && buf0[..] == old(buf0[..]) && buf1[..] == old(buf1[..])
      ensures dirty == Widen(old(dirty), 0, 192, 0, 560)
      ensures forall p :: 0 <= p < N ==> pixels[p] == RedrawPixel(m, Looks(), buf0[..], buf1[..], p, old(pixels[p]))
    {
      refreshing := true;
      ghost var s0, s1 := buf0[..], buf1[..];
      ghost var d0 := dirty;
      ghost var look := Looks();
      var addr := 0x400 * pageNo;
      var idx := 0;
      while idx < 0x400
        invariant 0 <= idx <= 0x400 && addr == 0x400 * pageNo + idx && refreshing
        invariant Looks() == look && buf0[..] == s0 && buf1[..] == s1
        invariant forall p :: 0 <= p < N ==>
          pixels[p] == if LoresOwner(p) < idx then RedrawPixel(m, look, s0, s1, p, old(pixels[p])) else old(pixels[p])
        invariant SweepDirty(d0, dirty, idx)
      {
        ghost var before := pixels[..];
        ghost var dirty0 := dirty;
        RedrawByte(addr, m);
        forall p | 0 <= p < N
          ensures pixels[p] == if LoresOwner(p) < idx + 1 then RedrawPixel(m, look, s0, s1, p, old(pixels[p])) else old(pixels[p])
        {
          GlRedrawStep(m, look, s0, s1, idx, p, old(pixels[p]), before[p], pixels[p]);
        }
        SweepDirtyStep(d0, dirty0, idx);
        idx := idx + 1;
        addr := addr + 1;
      }
      forall p | 0 <= p < N
        ensures pixels[p] == RedrawPixel(m, look, s0, s1, p, old(pixels[p]))
      {
        OwnerRange(p);
      }
      refreshing := false;
    }

    /** `blink`: flip the blink phase and redraw the main-bank bytes holding
        flashing codes. */
    method Blink(m: Modes)
      requires Valid()
      modifies this`blink, this`refreshing, this`dirty, pixels, buf0
      ensures blink == !old(blink) && !refreshing && buf0[..] == old(buf0[..])
      ensures Grows(old(dirty), dirty)
      ensures dirty == BlinkDirty(old(dirty), old(buf0[..]), 0x400)
      ensures forall p :: 0 <= p < N ==> pixels[p] == BlinkPixel(m, Looks(), buf0[..], buf1[..], p, old(pixels[p]))
    {
      refreshing := true;
      blink := !blink;
      ghost var s0, s1 := buf0[..], buf1[..];
      ghost var look := Looks();
      var addr := 0x400 * pageNo;
      var idx := 0;
      while idx < 0x400
        invariant 0 <= idx <= 0x400 && addr == 0x400 * pageNo + idx && refreshing
        invariant Looks() == look && buf0[..] == s0 && buf1[..] == s1
        invariant forall p :: 0 <= p < N ==>
          pixels[p] == if LoresOwner(p) < idx then BlinkPixel(m, look, s0, s1, p, old(pixels[p])) else old(pixels[p])
        invariant dirty == BlinkDirty(old(dirty), s0, idx)
      {
        ghost var before := pixels[..];
        BlinkByte(addr, m);
        ghost var after := pixels[..];
        forall p | 0 <= p < N
          ensures pixels[p] == if LoresOwner(p) < idx + 1 then BlinkPixel(m, look, s0, s1, p, old(pixels[p])) else old(pixels[p])
        {
          GlBlinkStep(m, look, s0, s1, idx, p, old(pixels[p]), before[p], after[p]);
        }
        idx := idx + 1;
        addr := addr + 1;
      }
      forall p | 0 <= p < N
        ensures pixels[p] == BlinkPixel(m, look, s0, s1, p, old(pixels[p]))
      {
        OwnerRange(p);
      }
      refreshing := false;
    }

    /** One step of `blink`: the main-bank byte at `addr` is rewritten in
        place when it holds a flashing code, and left alone otherwise. */
    method BlinkByte(addr: int, m: Modes)
      requires Valid() && refreshing
      requires 0x400 * pageNo <= addr < 0x400 * pageNo + 0x400
      modifies this`dirty, pixels, buf0
      ensures buf0[..] == old(buf0[..])
      ensures var idx := addr - 0x400 * pageNo;
        dirty == (if Flashing(buf0[idx] as int) then LoresDirty(old(dirty), idx) else old(dirty)) &&
        forall p :: 0 <= p < N ==>
          pixels[p] == if Flashing(buf0[idx] as int)
                       then PlanPixel(PlanOf(m, Looks(), buf0[..], buf1[..], idx, 0), p, old(pixels[p]))
                       else old(pixels[p])
    {
      var idx := addr - 0x400 * pageNo;
      var b := buf0[idx];
      if (b as int / 64) % 4 == 1 {
        WindowAddress(addr, pageNo, idx);
        Write(addr / 256, addr % 256, buf0[idx], 0, m);
      }
    }

    /** `getText`: the screen as 24 trimmed lines, 80 columns wide on a IIe in
        80-column mode. */
    method GetText(m: Modes) returns (s: string)
      requires Valid()
      ensures s == TextDump(e && m.col80, e, buf0[..], buf1[..])
    {
      s := ScreenText(e && m.col80, e, buf0, buf1);
    }
  }

  /** What `_write` draws for the byte at a bus page and offset: the text row
      and column decide visibility, and the box and plan are the offset's. */
  lemma GlDrawTarget(m: Modes, look: GlLook, s0: seq<byte>, s1: seq<byte>, page: int, off: int, bank: int, d: Region)
    requires |s0| == 0x400 && 0 <= page && 0 <= off < 256
    ensures var base := Offset(page, off, 0x400);
      var row, col := TextRow(page, off), ColOf(base);
      ((row < 24 && col < 40) <==> Visible(base)) &&
      (Visible(base) ==>
        LoresDirty(d, base) == Widen(d, row * 8, row * 8 + 8, col * 14, col * 14 + 14) &&
        PlanOf(m, look, s0, s1, base, bank) ==
          GlCellPlan(m, look, base, bank, if bank == 0 then s0[base] as int else At(s1, base), s0[base] as int)) &&
      (!Visible(base) ==> LoresDirty(d, base) == d && PlanOf(m, look, s0, s1, base, bank) == NoDraw)
  {
    WindowRow(page, off);
  }

  lemma GlRedrawStep(m: Modes, look: GlLook, s0: seq<byte>, s1: seq<byte>, idx: int, p: int,
                     o: Color, b: Color, a: Color)
    requires |s0| == 0x400 && 0 <= idx < 0x400 && 0 <= p < N
    requires b == if LoresOwner(p) < idx then RedrawPixel(m, look, s0, s1, p, o) else o
    requires a == RedrawCellPixel(m, look, s0, s1, idx, p, b)
    ensures a == if LoresOwner(p) < idx + 1 then RedrawPixel(m, look, s0, s1, p, o) else o
  {
    OwnerRange(p);
    if Visible(idx) {
      LoresCellOwner(idx, p);
    }
  }

  lemma GlBlinkStep(m: Modes, look: GlLook, s0: seq<byte>, s1: seq<byte>, idx: int, p: int,
                    o: Color, b: Color, a: Color)
    requires |s0| == 0x400 && 0 <= idx < 0x400 && 0 <= p < N
    requires b == if LoresOwner(p) < idx then BlinkPixel(m, look, s0, s1, p, o) else o
    requires a == if Flashing(s0[idx] as int) then PlanPixel(PlanOf(m, look, s0, s1, idx, 0), p, b) else b
    ensures a == if LoresOwner(p) < idx + 1 then BlinkPixel(m, look, s0, s1, p, o) else o
  {
    OwnerRange(p);
    if Visible(idx) {
      LoresCellOwner(idx, p);
    }
  }
}
