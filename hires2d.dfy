/**
 * The canvas back end's hi-res page (js/canvas.ts:539-913): an 8 KiB window
 * of main (and auxiliary) memory decoded into a 560x192 image as bytes are
 * written, with a dirty rectangle whose lines are counted twice over (the
 * image is shown 384 lines high).
 */
module Hires2D {
  import opened Screen
  import opened Glyphs
  import opened ColorTables
  import opened HiresDecode

  /** The page's own mode flags, re-derived at each refresh, and the
      floating-point composite blending, which the model leaves abstract. */
  datatype HiresLook = HiresLook(highColor: bool, oneSixty: bool, mixedDhr: bool, monoDhr: bool,
                                 shade: (Color, int) -> Color)

  /** `rowa < 24 && col < 40 && (hiresMode || _refreshing)`. */
  predicate Drawn(m: Modes, base: int, refreshing: bool)
    requires 0 <= base
  {
    HiresVisible(base) && (m.hires || refreshing)
  }

  /** The byte takes the double-hi-res branch, whose colours depend on the
      bytes beside it in both banks. */
  predicate DhrBranch(m: Modes, look: HiresLook, base: int, refreshing: bool)
    requires 0 <= base
  {
    Drawn(m, base, refreshing) && !(look.oneSixty && !m.mono) && m.dhr
  }

  /** What `_write` paints for the byte at window offset `base` of `bank`,
      given both banks' contents after the store. */
  function PlanOf(m: Modes, look: HiresLook, s0: seq<byte>, s1: seq<byte>, base: int, bank: int,
                  refreshing: bool): (plan: Plan)
    requires 0 <= base < 0x2000
    ensures Fits(plan)
    ensures plan.Rect? <==> Drawn(m, base, refreshing)
  {
    if !Drawn(m, base, refreshing) then NoDraw
    else
      HiresCell(base);
      var line, col := HiresLine(base), ColOf(base);
      if look.oneSixty && !m.mono then
        OneSixtyPlan(line, col, bank, m.palette, At(if bank == 0 then s0 else s1, base))
      else if m.dhr then
        var o := base - col % 2;
        var bz, b0, b1, b2 := At(s0, o - 1), At(s1, o), At(s0, o), At(s1, o + 1);
        var b3, b4 := At(s0, o + 1), At(s1, o + 2);
        DhrPlan(line, col, m.mono || look.monoDhr, look.mixedDhr, m.composited, m.palette, look.shade,
                DhrCodes(bz, b0, b1, b2, b3, b4, col), DhrHigh(bz, b0, b1, b2, b3, b4, col))
      else
        HiresPlan(line, col, m.mono, look.highColor, m.palette, At(s1, base),
                  if col > 0 then At(s0, base - 1) else 0, At(s0, base),
                  if col < 39 then At(s0, base + 1) else 0)
  }

  /** The dirty rectangle after `_write` considers offset `base`. */
  function Touch(d: Region, base: int, go: bool): Region
    requires 0 <= base
  {
    if go && HiresVisible(base) then Dirty2D(d, base) else d
  }

  /** The window offset of `rr = addr - 1 + k`, k = 0, 1, 2. */
  function Neighbour(base: int, k: int): (n: int)
    ensures 0 <= n < 0x2000
  {
    (base + k - 1 + 0x2000) % 0x2000
  }

  /** The image after the first k steps of the double-hi-res cascade: the
      other bank's bytes at `addr - 1`, `addr`, `addr + 1` written back
      under `_refreshing`. */
  function Cascade(m: Modes, look: HiresLook, s0: seq<byte>, s1: seq<byte>, base: int, bb: int, k: nat,
                   px: seq<Color>): seq<Color>
  {
    if k == 0 then px
    else Painted(PlanOf(m, look, s0, s1, Neighbour(base, k - 1), bb, true),
                 Cascade(m, look, s0, s1, base, bb, k - 1, px))
  }

  function CascadeDirty(base: int, k: nat, d: Region): Region {
    if k == 0 then d else Touch(CascadeDirty(base, k - 1, d), Neighbour(base, k - 1), true)
  }

  /** The image after `_write` draws the byte at `base` of `bank`. */
  function WriteImage(m: Modes, look: HiresLook, s0: seq<byte>, s1: seq<byte>, base: int, bank: int,
                      refreshing: bool, px: seq<Color>): seq<Color>
    requires 0 <= base < 0x2000
  {
    var first := Painted(PlanOf(m, look, s0, s1, base, bank, refreshing), px);
    if DhrBranch(m, look, base, refreshing) && !refreshing then Cascade(m, look, s0, s1, base, 1 - bank, 3, first)
    else first
  }

  function WriteDirty(m: Modes, look: HiresLook, base: int, refreshing: bool, d: Region): Region
    requires 0 <= base < 0x2000
  {
    var d1 := Touch(d, base, m.hires || refreshing);
    if DhrBranch(m, look, base, refreshing) && !refreshing then CascadeDirty(base, 3, d1) else d1
  }

  /** One step of `refresh`'s loop: offset idx redrawn from the main bank
      and, in 80 columns, then from the auxiliary bank. */
  function ReplayStep(m: Modes, look: HiresLook, s0: seq<byte>, s1: seq<byte>, idx: int, px: seq<Color>): seq<Color>
    requires 0 <= idx < 0x2000
  {
    var a := Painted(PlanOf(m, look, s0, s1, idx, 0, true), px);
    if m.col80 then Painted(PlanOf(m, look, s0, s1, idx, 1, true), a) else a
  }

  /** The dirty rectangle after the first n offsets of the window are redrawn. */
  function Swept(d: Region, n: nat): Region
    requires n <= 0x2000
  {
    if n == 0 then d else Touch(Swept(d, n - 1), n - 1, true)
  }

  /** The image after the first n offsets of the window are redrawn. */
  function Replay(m: Modes, look: HiresLook, s0: seq<byte>, s1: seq<byte>, n: nat, px: seq<Color>): seq<Color>
    requires n <= 0x2000
  {
    if n == 0 then px else ReplayStep(m, look, s0, s1, n - 1, Replay(m, look, s0, s1, n - 1, px))
  }

  class HiresPage2D {
    const pageNo: int
    /** `_buffer[0]` and `_buffer[1]`: the page's window of main and of
        auxiliary memory; the auxiliary one is empty on a machine without it. */
    const buf0: array<byte>
    const buf1: array<byte>
    /** The RGB of the page's `imageData`. */
    const pixels: array<Color>
    const shade: (Color, int) -> Color
    var dirty: Region
    var refreshing: bool
    var highColorHGR: bool
    var oneSixty: bool
    var mixedDhr: bool
    var monoDhr: bool

    predicate Valid() {
      buf0.Length == 0x2000 && (buf1.Length == 0x2000 || buf1.Length == 0) && buf0 != buf1 &&
      pixels.Length == N && (pageNo == 1 || pageNo == 2)
    }

    predicate HasAux() {
      buf1.Length == 0x2000
    }

    function Bank(bank: int): array<byte> {
      if bank == 0 then buf0 else buf1
    }

    function Looks(): HiresLook
      reads this`highColorHGR, this`oneSixty, this`mixedDhr, this`monoDhr
    {
      HiresLook(highColorHGR, oneSixty, mixedDhr, monoDhr, shade)
    }

    constructor (pageNo: int, main: array<byte>, aux: array<byte>, shade: (Color, int) -> Color)
      requires main.Length == 0x2000 && (aux.Length == 0x2000 || aux.Length == 0) && main != aux
      requires pageNo == 1 || pageNo == 2
      ensures Valid() && this.pageNo == pageNo && buf0 == main && buf1 == aux && this.shade == shade
      ensures fresh(pixels) && dirty == NotDirty && !refreshing
      ensures !highColorHGR && !oneSixty && !mixedDhr && !monoDhr
      ensures forall p :: 0 <= p < N ==> pixels[p] == White
    {
      this.pageNo := pageNo;
      buf0 := main;
      buf1 := aux;
      this.shade := shade;
      pixels := new Color[N](_ => White);
      dirty := NotDirty;
      refreshing := false;
      highColorHGR := false;
      oneSixty := false;
      mixedDhr := false;
      monoDhr := false;
    }

    /** The bus pages the page answers to: 32 pages from 32 * pageNo. */
    function Start(): (s: int)
      requires Valid()
      ensures s * 256 == 0x2000 * pageNo
    {
      0x20 * pageNo
    }

    function End(): (t: int)
      requires Valid()
      ensures t == Start() + 0x1f
    {
      0x20 * pageNo + 0x1f
    }

    /** `_read`: the byte at `addr & 0x1fff`. */
    function Read(page: int, off: int, bank: int): (v: byte)
      reads buf0, buf1
      requires Valid() && 0 <= page && 0 <= off < 256 && (bank == 0 || bank == 1)
      requires bank == 1 ==> HasAux()
      ensures v == Bank(bank)[Offset(page, off, 0x2000)]
    {
      Bank(bank)[Offset(page, off, 0x2000)]
    }

    /** `_write`: store the byte and, unless it is unchanged and no refresh
        is under way, redraw it; a double-hi-res byte then has the other
        bank's bytes at the address and beside it redrawn as well. */
    method Write(page: int, off: int, val: byte, bank: int, m: Modes)
      requires Valid() && 0 <= page < 256 && 0 <= off < 256 && (bank == 0 || bank == 1)
      requires !refreshing ==> Start() <= page <= End()
      requires bank == 1 ==> HasAux()
      requires m.dhr ==> HasAux()
      modifies this`dirty, this`refreshing, pixels, buf0, buf1
      decreases if refreshing then 1 else 4, 0
      ensures refreshing == old(refreshing)
      ensures var base := Offset(page, off, 0x2000);
        Bank(bank)[..] == old(Bank(bank)[..])[base := val] && Bank(1 - bank)[..] == old(Bank(1 - bank)[..])
      ensures var base := Offset(page, off, 0x2000);
        old(Bank(bank)[base]) == val && !refreshing ==> dirty == old(dirty) && pixels[..] == old(pixels[..])
      ensures var base := Offset(page, off, 0x2000);
        old(Bank(bank)[base]) != val || refreshing ==>
          dirty == WriteDirty(m, Looks(), base, refreshing, old(dirty)) &&
          pixels[..] == WriteImage(m, Looks(), buf0[..], buf1[..], base, bank, refreshing, old(pixels[..]))
    {
      var base := Offset(page, off, 0x2000);
      var buffer := Bank(bank);
      if buffer[base] == val && !refreshing {
        return;
      }
      buffer[base] := val;
      Draw(page, off, base, bank, m);
    }

    /** The drawing half of `_write`, for the byte just stored at `base`. */
    method Draw(page: int, off: int, base: int, bank: int, m: Modes)
      requires Valid() && 0 <= page < 256 && 0 <= off < 256 && (bank == 0 || bank == 1)
      requires base == Offset(page, off, 0x2000)
      requires !refreshing ==> Start() <= page <= End()
      requires m.dhr ==> HasAux()
      modifies this`dirty, this`refreshing, pixels, buf0, buf1
      decreases if refreshing then 0 else 3, 1
      ensures refreshing == old(refreshing) && buf0[..] == old(buf0[..]) && buf1[..] == old(buf1[..])
      ensures dirty == WriteDirty(m, Looks(), base, refreshing, old(dirty))
      ensures pixels[..] == WriteImage(m, Looks(), buf0[..], buf1[..], base, bank, refreshing, old(pixels[..]))
    {
      var col := ColOf(base);
      var rowa := TextRow(page, off);
      WriteBox(page, off);
      if rowa < 24 && col < 40 && (m.hires || refreshing) {
        DrawCell(page, off, base, bank, m, rowa * 16 + (base / 0x400) * 2, col);
      } else {
        assert pixels[..] == Painted(NoDraw, pixels[..]);
      }
    }

    /** A visible byte: its cell painted and, in double hi-res, the other
        bank's bytes beside it redrawn. */
    method DrawCell(page: int, off: int, base: int, bank: int, m: Modes, y: int, col: int)
      requires Valid() && 0 <= page < 256 && 0 <= off < 256 && (bank == 0 || bank == 1)
      requires base == Offset(page, off, 0x2000) && Drawn(m, base, refreshing)
      requires y == 2 * HiresLine(base) && col == ColOf(base)
      requires !refreshing ==> Start() <= page <= End()
      requires m.dhr ==> HasAux()
      modifies this`dirty, this`refreshing, pixels, buf0, buf1
      decreases if refreshing then 0 else 3, 0
      ensures refreshing == old(refreshing) && buf0[..] == old(buf0[..]) && buf1[..] == old(buf1[..])
      ensures dirty == WriteDirty(m, Looks(), base, refreshing, old(dirty))
      ensures pixels[..] == WriteImage(m, Looks(), buf0[..], buf1[..], base, bank, refreshing, old(pixels[..]))
    {
      ghost var d0, px := dirty, pixels[..];
      DrawnDirty(m, Looks(), base, refreshing, d0);
      PaintCell(base, bank, m, y, col);
      assert dirty == Dirty2D(d0, base);
      ghost var first := pixels[..];
      DrawnImage(m, Looks(), buf0[..], buf1[..], base, bank, refreshing, px, first);
      if m.dhr && !(oneSixty && !m.mono) && !refreshing {
        Redraw3(page, off, base, bank, m);
      }
    }

    /** The cell of `base` drawn from `bank` and added to the dirty box
        whose top line is `y` (on the 384-line scale) and column `col`. */
    method PaintCell(base: int, bank: int, m: Modes, y: int, col: int)
      requires Valid() && 0 <= base < 0x2000 && (bank == 0 || bank == 1) && (m.dhr ==> HasAux())
      modifies this`dirty, pixels
      ensures dirty == Widen(old(dirty), y, y + 1, col * 14 - 2, col * 14 + 16)
      ensures pixels[..] == Painted(PlanOf(m, Looks(), buf0[..], buf1[..], base, bank, refreshing), old(pixels[..]))
    {
      dirty := Widen(dirty, y, y + 1, col * 14 - 2, col * 14 + 16);
      var plan := PlanOf(m, Looks(), buf0[..], buf1[..], base, bank, refreshing);
      ghost var before := pixels[..];
      Paint(pixels, plan);
      assert pixels[..] == Painted(plan, before);
    }

    /** The end of the double-hi-res branch: with `_refreshing` set, write the
        other bank's bytes at `addr - 1`, `addr`, `addr + 1` back in place. */
    method Redraw3(page: int, off: int, base: int, bank: int, m: Modes)
      requires Valid() && Start() <= page <= End() && 0 <= off < 256 && (bank == 0 || bank == 1)
      requires base == Offset(page, off, 0x2000) && !refreshing && HasAux()
      modifies this`dirty, this`refreshing, pixels, buf0, buf1
      decreases 2, 1
      ensures !refreshing && buf0[..] == old(buf0[..]) && buf1[..] == old(buf1[..])
      ensures dirty == CascadeDirty(base, 3, old(dirty))
      ensures pixels[..] == Cascade(m, Looks(), buf0[..], buf1[..], base, 1 - bank, 3, old(pixels[..]))
    {
      refreshing := true;
      var bb := 1 - bank;
      ghost var s0, s1 := buf0[..], buf1[..];
      ghost var look := Looks();
      var addr := page * 256 + off;
      var rr := addr - 1;
      while rr <= addr + 1
        invariant addr - 1 <= rr <= addr + 2 && refreshing && Looks() == look
        invariant buf0[..] == s0 && buf1[..] == s1
        invariant pixels[..] == Cascade(m, look, s0, s1, base, bb, rr - addr + 1, old(pixels[..]))
        invariant dirty == CascadeDirty(base, rr - addr + 1, old(dirty))
      {
        WriteBack(page, off, rr - addr + 1, bb, m);
        rr := rr + 1;
      }
      refreshing := false;
    }

    /** One step of the cascade: the byte of bank `bb` at bus address
        `addr - 1 + k` read and written back under `_refreshing`. */
    method WriteBack(page: int, off: int, k: int, bb: int, m: Modes)
      requires Valid() && Start() <= page <= End() && 0 <= off < 256 && 0 <= k <= 2 && (bb == 0 || bb == 1)
      requires refreshing && HasAux()
      modifies this`dirty, this`refreshing, pixels, buf0, buf1
      decreases 2, 0
      ensures refreshing && buf0[..] == old(buf0[..]) && buf1[..] == old(buf1[..])
      ensures var n := Neighbour(Offset(page, off, 0x2000), k);
        dirty == Touch(old(dirty), n, true) &&
        pixels[..] == Painted(PlanOf(m, Looks(), buf0[..], buf1[..], n, bb, true), old(pixels[..]))
    {
      var rr := page * 256 + off + k - 1;
      BusNeighbour(page, off, k);
      var vv := Read(rr / 256, rr % 256, bb);
      Write(rr / 256, rr % 256, vv, bb, m);
      assert Bank(bb)[..] == old(Bank(bb)[..]);
    }

    /** The body of `refresh`'s loop: the bytes at `addr` written back in place. */
    method RedrawByte(addr: int, m: Modes)
      requires Valid() && (m.col80 ==> HasAux()) && (m.dhr ==> HasAux()) && refreshing
      requires 0x2000 * pageNo <= addr < 0x2000 * pageNo + 0x2000
      modifies this`dirty, this`refreshing, pixels, buf0, buf1
      ensures refreshing && buf0[..] == old(buf0[..]) && buf1[..] == old(buf1[..])
      ensures var idx := addr - 0x2000 * pageNo;
        dirty == Touch(old(dirty), idx, true) &&
        pixels[..] == ReplayStep(m, Looks(), buf0[..], buf1[..], idx, old(pixels[..]))
    {
      var idx := addr - 0x2000 * pageNo;
      HiresAddress(addr, pageNo, idx);
      var page := addr / 256;
      var off := addr % 256;
      ghost var s0, s1 := buf0[..], buf1[..];
      Write(page, off, buf0[idx], 0, m);
      assert buf0[..] == s0 && buf1[..] == s1;
      if m.col80 {
        ghost var d1 := dirty;
        Write(page, off, buf1[idx], 1, m);
        assert buf0[..] == s0 && buf1[..] == s1;
        TouchTwice(d1, idx);
      }
    }

    /** `refresh`: re-derive the page's mode flags and redraw every byte of
        the window, the auxiliary bank's too in 80 columns. */
    method Refresh(m: Modes)
      requires Valid() && (m.col80 ==> HasAux()) && (m.dhr ==> HasAux())
      modifies this`highColorHGR, this`oneSixty, this`mixedDhr, this`monoDhr, this`refreshing, this`dirty
      modifies pixels, buf0, buf1
      ensures highColorHGR == (!m.an3 && m.hires && !m.col80) && oneSixty == (m.flag == 1 && m.dhr)
      ensures mixedDhr == (m.flag == 2 && m.dhr) && monoDhr == (m.flag == 3 && m.dhr)
      ensures !refreshing && buf0[..] == old(buf0[..]) && buf1[..] == old(buf1[..])
      ensures pixels[..] == Replay(m, Looks(), buf0[..], buf1[..], 0x2000, old(pixels[..]))
      ensures dirty == Widen(old(dirty), 0, 383, -2, 562)
    {
      highColorHGR := !m.an3 && m.hires && !m.col80;
      oneSixty := m.flag == 1 && m.dhr;
      mixedDhr := m.flag == 2 && m.dhr;
      monoDhr := m.flag == 3 && m.dhr;
      RedrawWindow(m);
    }

    /** `refresh`'s loop: every offset of the window redrawn in order, with
        the page in its refreshing state. */
    method RedrawWindow(m: Modes)
      requires Valid() && (m.col80 ==> HasAux()) && (m.dhr ==> HasAux())
      modifies this`refreshing, this`dirty, pixels, buf0, buf1
      ensures !refreshing && buf0[..] == old(buf0[..]) && buf1[..] == old(buf1[..])
      ensures pixels[..] == Replay(m, Looks(), buf0[..], buf1[..], 0x2000, old(pixels[..]))
      ensures dirty == Widen(old(dirty), 0, 383, -2, 562)
    {
      ghost var s0, s1 := buf0[..], buf1[..];
      ghost var look := Looks();
      ghost var d0 := dirty;
      var addr := 0x2000 * pageNo;
      refreshing := true;
      var idx := 0;
      while idx < 0x2000
        invariant 0 <= idx <= 0x2000 && addr == 0x2000 * pageNo + idx && refreshing
        invariant Looks() == look && buf0[..] == s0 && buf1[..] == s1
        invariant pixels[..] == Replay(m, look, s0, s1, idx, old(pixels[..]))
        invariant dirty == Swept(d0, idx)
      {
        RedrawByte(addr, m);
        idx := idx + 1;
        addr := addr + 1;
      }
      SweptAll(d0);
      refreshing := false;
    }
  }

  /** `rr >> 8` and `rr & 0xff` of a cascade address name the window offset
      beside the written one, wrapping at the ends of the window. */
  lemma BusNeighbour(page: int, off: int, k: int)
    requires 1 <= page < 255 && 0 <= off < 256 && 0 <= k <= 2
    ensures var rr := page * 256 + off + k - 1;
      0 <= rr / 256 < 256 && 0 <= rr % 256 < 256 &&
      Offset(rr / 256, rr % 256, 0x2000) == Neighbour(Offset(page, off, 0x2000), k)
  {
    var a := page * 256 + off;
    var rr := a + k - 1;
    var base := a % 0x2000;
    var t := base + k - 1 + 0x2000;
    DivMod(rr, 0x2000, a / 0x2000 - 1 + t / 0x2000, t % 0x2000);
    assert (rr / 256) * 256 + rr % 256 == rr;
  }

  /** The dirty box of a drawn byte: its own box, then the cascade's. */
  lemma DrawnDirty(m: Modes, look: HiresLook, base: int, refreshing: bool, d: Region)
    requires 0 <= base < 0x2000 && Drawn(m, base, refreshing)
    ensures WriteDirty(m, look, base, refreshing, d) ==
      if DhrBranch(m, look, base, refreshing) && !refreshing then CascadeDirty(base, 3, Dirty2D(d, base))
      else Dirty2D(d, base)
  {
  }

  /** The image of a drawn byte: its own plan, then the cascade's. */
  lemma DrawnImage(m: Modes, look: HiresLook, s0: seq<byte>, s1: seq<byte>, base: int, bank: int,
                   refreshing: bool, px: seq<Color>, first: seq<Color>)
    requires 0 <= base < 0x2000 && first == Painted(PlanOf(m, look, s0, s1, base, bank, refreshing), px)
    ensures WriteImage(m, look, s0, s1, base, bank, refreshing, px) ==
      if DhrBranch(m, look, base, refreshing) && !refreshing then Cascade(m, look, s0, s1, base, 1 - bank, 3, first)
      else first
  {
  }

  lemma TouchTwice(d: Region, idx: int)
    requires 0 <= idx
    ensures Touch(Touch(d, idx, true), idx, true) == Touch(d, idx, true)
  {
  }

  /** One refresh step keeps the dirty rectangle between its value `d0`
      before the loop and the whole screen, and the first and last visible
      offsets reach the screen's corners. */
  lemma StepBounds(d0: Region, d: Region, idx: int)
    requires 0 <= idx < 0x2000 && Grows(d0, d) && Grows(d, Widen(d0, 0, 383, -2, 562))
    ensures Grows(d, Touch(d, idx, true))
    ensures Grows(d0, Touch(d, idx, true)) && Grows(Touch(d, idx, true), Widen(d0, 0, 383, -2, 562))
    ensures idx == 0 ==> Touch(d, idx, true).top <= 0 && Touch(d, idx, true).left <= -2
    ensures idx == 0x1FF7 ==> Touch(d, idx, true).bottom >= 383 && Touch(d, idx, true).right >= 562
  {
    LineInside(d0, d, idx);
    if idx == 0 {
      FirstTouch(d);
    } else if idx == 0x1FF7 {
      LastTouch(d);
    }
  }

  /** Every prefix of the sweep lies between the old rectangle and the
      screen's box, and reaches its corners once it has passed them. */
  lemma {:induction false} SweptBounds(d0: Region, n: nat)
    requires n <= 0x2000
    ensures Grows(d0, Swept(d0, n)) && Grows(Swept(d0, n), Widen(d0, 0, 383, -2, 562))
    ensures n > 0 ==> Swept(d0, n).top <= 0 && Swept(d0, n).left <= -2
    ensures n > 0x1FF7 ==> Swept(d0, n).bottom >= 383 && Swept(d0, n).right >= 562
  {
    if n > 0 {
      SweptBounds(d0, n - 1);
      StepBounds(d0, Swept(d0, n - 1), n - 1);
    }
  }

  /** Sweeping the whole window widens the rectangle by the screen's box. */
  lemma SweptAll(d0: Region)
    ensures Swept(d0, 0x2000) == Widen(d0, 0, 383, -2, 562)
  {
    SweptBounds(d0, 0x2000);
    Squeeze(d0, Swept(d0, 0x2000), 383, -2, 562);
  }

  lemma FirstTouch(d: Region)
    ensures Touch(d, 0, true) == Widen(d, 0, 1, -2, 16)
  {
    FirstLine();
  }

  lemma LastTouch(d: Region)
    ensures Touch(d, 0x1FF7, true) == Widen(d, 382, 383, 544, 562)
  {
    LastLine();
  }

  lemma TouchVisible(d: Region, idx: int, line: int, col: int)
    requires 0 <= idx && HiresVisible(idx) && HiresLine(idx) == line && ColOf(idx) == col
    ensures Touch(d, idx, true) == Widen(d, 2 * line, 2 * line + 1, col * 14 - 2, col * 14 + 16)
  {
  }

  /** A line's box lies in the screen's. */
  lemma LineInside(d0: Region, d: Region, idx: int)
    requires 0 <= idx < 0x2000 && Grows(d0, d) && Grows(d, Widen(d0, 0, 383, -2, 562))
    ensures Grows(d, Touch(d, idx, true))
    ensures Grows(d0, Touch(d, idx, true)) && Grows(Touch(d, idx, true), Widen(d0, 0, 383, -2, 562))
  {
    if HiresVisible(idx) {
      HiresCell(idx);
      var line, col := HiresLine(idx), ColOf(idx);
      BoxWithin(d0, d, 2 * line, 2 * line + 1, col * 14 - 2, col * 14 + 16, 383, -2, 562);
      TouchVisible(d, idx, line, col);
    }
  }
}
