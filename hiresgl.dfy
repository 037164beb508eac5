/**
 * `HiresPageGL` of the WebGL renderer (js/gl.ts:390-570): the 8 KiB hi-res
 * window decoded into a black-and-white 560 x 192 image that a shader
 * later colours. A single hi-res byte of the main bank also has the byte
 * after it redrawn, since that byte's leading half-pixel shows bit 6 of
 * this one.
 */
module HiresGL {
  import opened Screen
  import opened Glyphs
  import opened HiresDecode

  /** `rowa < 24 && col < 40 && hiresMode`: unlike the canvas page, a
      refresh outside hi-res mode draws nothing. */
  predicate GlDrawn(m: Modes, base: int)
    requires 0 <= base
  {
    HiresVisible(base) && m.hires
  }

  /** What `_write` paints for the byte at window offset `base` of `bank`:
      in double hi-res seven half-pixels from either bank, in single hi-res
      the main bank's seven pixels and nothing from the auxiliary bank. */
  function PlanOf(m: Modes, s0: seq<byte>, s1: seq<byte>, base: int, bank: int): (plan: Plan)
    requires 0 <= base < 0x2000
    ensures Fits(plan)
    ensures plan.Rect? <==> GlDrawn(m, base) && (m.dhr || bank == 0)
  {
    if !GlDrawn(m, base) then NoDraw
    else
      HiresCell(base);
      var line, col := HiresLine(base), ColOf(base);
      if m.dhr then GlDhrPlan(line, col, bank, At(if bank == 0 then s0 else s1, base))
      else if bank == 0 then GlHiresPlan(line, col, At(s0, base - 1), At(s0, base))
      else NoDraw
  }

  /** The dirty rectangle after `_write` considers offset `base`. */
  function Touch(d: Region, base: int, go: bool): Region
    requires 0 <= base
  {
    if go && HiresVisible(base) then DirtyGL(d, base) else d
  }

  /** `(addr + 1) & 0x1fff`: the window offset of the byte after `base`. */
  function Next(base: int): (n: int)
    ensures 0 <= n < 0x2000
  {
    (base + 1) % 0x2000
  }

  /** The write of `base` goes on to redraw the byte after it. */
  predicate Cascades(m: Modes, base: int, bank: int, refreshing: bool)
    requires 0 <= base
  {
    GlDrawn(m, base) && !m.dhr && bank == 0 && !refreshing
  }

  /** The image after `_write` draws the byte at `base` of `bank`. */
  function WriteImage(m: Modes, s0: seq<byte>, s1: seq<byte>, base: int, bank: int, refreshing: bool,
                      px: seq<Color>): seq<Color>
    requires 0 <= base < 0x2000
  {
    var first := Painted(PlanOf(m, s0, s1, base, bank), px);
    if Cascades(m, base, bank, refreshing) then Painted(PlanOf(m, s0, s1, Next(base), 0), first) else first
  }

  function WriteDirty(m: Modes, base: int, bank: int, refreshing: bool, d: Region): Region
    requires 0 <= base < 0x2000
  {
    var d1 := Touch(d, base, m.hires);
    if Cascades(m, base, bank, refreshing) then Touch(d1, Next(base), true) else d1
  }

  /** One step of `refresh`'s loop: offset idx redrawn from the main bank
      and, in 80 columns, then from the auxiliary bank. */
  function ReplayStep(m: Modes, s0: seq<byte>, s1: seq<byte>, idx: int, px: seq<Color>): seq<Color>
    requires 0 <= idx < 0x2000
  {
    var a := Painted(PlanOf(m, s0, s1, idx, 0), px);
    if m.col80 then Painted(PlanOf(m, s0, s1, idx, 1), a) else a
  }

  /** The image after the first n offsets of the window are redrawn. */
  function Replay(m: Modes, s0: seq<byte>, s1: seq<byte>, n: nat, px: seq<Color>): seq<Color>
    requires n <= 0x2000
  {
    if n == 0 then px else ReplayStep(m, s0, s1, n - 1, Replay(m, s0, s1, n - 1, px))
  }

  /** The dirty rectangle after the first n offsets are redrawn in hi-res mode. */
  function Swept(d: Region, n: nat): Region
    requires n <= 0x2000
  {
    if n == 0 then d else Touch(Swept(d, n - 1), n - 1, true)
  }

  /** Why the write cascades: with its high bit set, a single hi-res byte's
      leading half-pixel shows bit 6 of the byte before it, so the byte
      after a stored one must be redrawn. */
  lemma LeadingHalfPixel(m: Modes, s0: seq<byte>, s1: seq<byte>, n: int)
    requires |s0| == 0x2000 && 0 < n < 0x2000
    requires GlDrawn(m, n) && !m.dhr && s0[n] >= 128
    ensures var plan := PlanOf(m, s0, s1, n, 0);
      plan.Rect? && plan.w >= 1 && (plan.f(0, 0) == White <==> Bit(s0[n - 1] as int, 6))
  {
    var prev, val := s0[n - 1] as int, s0[n] as int;
    assert At(s0, n - 1) == prev && At(s0, n) == val;
    HiresCell(n);
    var line, col := HiresLine(n), ColOf(n);
    assert PlanOf(m, s0, s1, n, 0) == GlHiresPlan(line, col, prev, val);
    GlHiresPixel(line, col, prev, val, 0);
  }

  /** Outside double hi-res the auxiliary bank paints nothing. */
  lemma AuxSilent(m: Modes, s0: seq<byte>, s1: seq<byte>, base: int)
    requires 0 <= base < 0x2000 && !m.dhr
    ensures PlanOf(m, s0, s1, base, 1) == NoDraw
  {
  }

  class HiresPageGL {
    const pageNo: int
    /** `_buffer[0]` and `_buffer[1]`: the window of main and of auxiliary
        memory; the auxiliary one is empty on a machine without it. */
    const buf0: array<byte>
    const buf1: array<byte>
    /** The RGB of the page's `imageData`. */
    const pixels: array<Color>
    var dirty: Region
    var refreshing: bool

    predicate Valid() {
      buf0.Length == 0x2000 && (buf1.Length == 0x2000 || buf1.Length == 0) && buf0 != buf1 &&
      pixels.Length == N && (pageNo == 1 || pageNo == 2)
    }

    predicate HasAux() {
      buf1.Length == 0x2000
    }

    function Bank(bank: int): array<byte> {
      if bank == 0 then buf0 else buf1
    }

    constructor (pageNo: int, main: array<byte>, aux: array<byte>)
      requires main.Length == 0x2000 && (aux.Length == 0x2000 || aux.Length == 0) && main != aux
      requires pageNo == 1 || pageNo == 2
      ensures Valid() && this.pageNo == pageNo && buf0 == main && buf1 == aux
      ensures fresh(pixels) && dirty == NotDirty && !refreshing
      ensures forall p :: 0 <= p < N ==> pixels[p] == White
    {
      this.pageNo := pageNo;
      buf0 := main;
      buf1 := aux;
      pixels := new Color[N](_ => White);
      dirty := NotDirty;
      refreshing := false;
    }

    /** The bus pages the page answers to: 32 pages from 32 * pageNo. */
    function Start(): (s: int)
      requires Valid()
      ensures s * 256 == 0x2000 * pageNo
    {
      0x20 * pageNo
    }

    function End(): (t: int)
      requires Valid()
      ensures t == Start() + 0x1f
    {
      0x20 * pageNo + 0x1f
    }

    /** `_read`: the byte at `addr & 0x1fff`. */
    function Read(page: int, off: int, bank: int): (v: byte)
      reads buf0, buf1
      requires Valid() && 0 <= page && 0 <= off < 256 && (bank == 0 || bank == 1)
      requires bank == 1 ==> HasAux()
      ensures v == Bank(bank)[Offset(page, off, 0x2000)]
    {
      Bank(bank)[Offset(page, off, 0x2000)]
    }

    /** `_write`: store the byte and, unless it is unchanged and no refresh
        is under way, redraw it; a single hi-res main-bank byte then has the
        byte after it redrawn under `_refreshing`. */
    method Write(page: int, off: int, val: byte, bank: int, m: Modes)
      requires Valid() && 0 <= page < 256 && 0 <= off < 256 && (bank == 0 || bank == 1)
      requires !refreshing ==> Start() <= page <= End()
      requires bank == 1 ==> HasAux()
      modifies this`dirty, this`refreshing, pixels, buf0, buf1
      decreases if refreshing then 1 else 4, 0
      ensures refreshing == old(refreshing)
      ensures var base := Offset(page, off, 0x2000);
        Bank(bank)[..] == old(Bank(bank)[..])[base := val] && Bank(1 - bank)[..] == old(Bank(1 - bank)[..])
      ensures var base := Offset(page, off, 0x2000);
        old(Bank(bank)[base]) == val && !refreshing ==> dirty == old(dirty) && pixels[..] == old(pixels[..])
      ensures var base := Offset(page, off, 0x2000);
        old(Bank(bank)[base]) != val || refreshing ==>
          dirty == WriteDirty(m, base, bank, refreshing, old(dirty)) &&
          pixels[..] == WriteImage(m, buf0[..], buf1[..], base, bank, refreshing, old(pixels[..]))
    {
      var base := Offset(page, off, 0x2000);
      var buffer := Bank(bank);
      if buffer[base] == val && !refreshing {
        return;
      }
      buffer[base] := val;
      Draw(page, off, base, bank, m);
    }

    /** The drawing half of `_write`, for the byte just stored at `base`. */
    method Draw(page: int, off: int, base: int, bank: int, m: Modes)
      requires Valid() && 0 <= page < 256 && 0 <= off < 256 && (bank == 0 || bank == 1)
      requires base == Offset(page, off, 0x2000)
      requires !refreshing ==> Start() <= page <= End()
      modifies this`dirty, this`refreshing, pixels, buf0, buf1
      decreases if refreshing then 0 else 3, 1
      ensures refreshing == old(refreshing) && buf0[..] == old(buf0[..]) && buf1[..] == old(buf1[..])
      ensures dirty == WriteDirty(m, base, bank, refreshing, old(dirty))
      ensures pixels[..] == WriteImage(m, buf0[..], buf1[..], base, bank, refreshing, old(pixels[..]))
    {
      var col := ColOf(base);
      var rowa := TextRow(page, off);
      WriteBox(page, off);
      if rowa < 24 && col < 40 && m.hires {
        DrawCell(page, off, base, bank, m, rowa * 8 + base / 0x400, col);
      } else {
        assert pixels[..] == Painted(NoDraw, pixels[..]);
      }
    }

    /** A visible byte: its line painted and, for a single hi-res main-bank
        byte outside a refresh, the byte after it written back in place. */
    method DrawCell(page: int, off: int, base: int, bank: int, m: Modes, y: int, col: int)
      requires Valid() && 0 <= page < 256 && 0 <= off < 256 && (bank == 0 || bank == 1)
      requires base == Offset(page, off, 0x2000) && GlDrawn(m, base)
      requires y == HiresLine(base) && col == ColOf(base)
      requires !refreshing ==> Start() <= page <= End()
      modifies this`dirty, this`refreshing, pixels, buf0, buf1
      decreases if refreshing then 0 else 3, 0
      ensures refreshing == old(refreshing) && buf0[..] == old(buf0[..]) && buf1[..] == old(buf1[..])
      ensures dirty == WriteDirty(m, base, bank, refreshing, old(dirty))
      ensures pixels[..] == WriteImage(m, buf0[..], buf1[..], base, bank, refreshing, old(pixels[..]))
    {
      PaintCell(base, bank, m, y, col);
      if !m.dhr && bank == 0 && !refreshing {
        refreshing := true;
        var after := page * 256 + off + 1;
        NextAddress(page, off);
        ghost var s0 := buf0[..];
        Write(after / 256, after % 256, buf0[Next(base)], 0, m);
        assert buf0[..] == s0;
        refreshing := false;
      }
    }

    /** The line of `base` drawn from `bank` and its box, line `y` and
        column `col`, added to the dirty rectangle. */
    method PaintCell(base: int, bank: int, m: Modes, y: int, col: int)
      requires Valid() && 0 <= base < 0x2000 && (bank == 0 || bank == 1)
      requires GlDrawn(m, base) && y == HiresLine(base) && col == ColOf(base)
      modifies this`dirty, pixels
      ensures dirty == Touch(old(dirty), base, m.hires)
      ensures pixels[..] == Painted(PlanOf(m, buf0[..], buf1[..], base, bank), old(pixels[..]))
    {
      dirty := Widen(dirty, y, y + 1, col * 14 - 2, col * 14 + 12);
      var plan := PlanOf(m, buf0[..], buf1[..], base, bank);
      ghost var before := pixels[..];
      Paint(pixels, plan);
      assert pixels[..] == Painted(plan, before);
    }

    /** The body of `refresh`'s loop: the bytes at `addr` written back in place. */
    method RedrawByte(addr: int, m: Modes)
      requires Valid() && (m.col80 ==> HasAux()) && refreshing
      requires 0x2000 * pageNo <= addr < 0x2000 * pageNo + 0x2000
      modifies this`dirty, this`refreshing, pixels, buf0, buf1
      ensures refreshing && buf0[..] == old(buf0[..]) && buf1[..] == old(buf1[..])
      ensures var idx := addr - 0x2000 * pageNo;
        dirty == Touch(old(dirty), idx, m.hires) &&
        pixels[..] == ReplayStep(m, buf0[..], buf1[..], idx, old(pixels[..]))
    {
      var idx := addr - 0x2000 * pageNo;
      HiresAddress(addr, pageNo, idx);
      var page := addr / 256;
      var off := addr % 256;
      ghost var s0, s1 := buf0[..], buf1[..];
      Write(page, off, buf0[idx], 0, m);
      assert buf0[..] == s0 && buf1[..] == s1;
      if m.col80 {
        Write(page, off, buf1[idx], 1, m);
        assert buf0[..] == s0 && buf1[..] == s1;
      }
    }

    /** `refresh`: every byte of the window written back in place, the
        auxiliary bank's too in 80 columns; in hi-res mode the dirty
        rectangle then spans the whole image. */
    method Refresh(m: Modes)
      requires Valid() && (m.col80 ==> HasAux())
      modifies this`refreshing, this`dirty, pixels, buf0, buf1
      ensures !refreshing && buf0[..] == old(buf0[..]) && buf1[..] == old(buf1[..])
      ensures pixels[..] == Replay(m, buf0[..], buf1[..], 0x2000, old(pixels[..]))
      ensures dirty == if m.hires then Widen(old(dirty), 0, 192, -2, 558) else old(dirty)
    {
      ghost var s0, s1 := buf0[..], buf1[..];
      ghost var d0 := dirty;
      var addr := 0x2000 * pageNo;
      refreshing := true;
      var idx := 0;
      while idx < 0x2000
        invariant 0 <= idx <= 0x2000 && addr == 0x2000 * pageNo + idx && refreshing
        invariant buf0[..] == s0 && buf1[..] == s1
        invariant pixels[..] == Replay(m, s0, s1, idx, old(pixels[..]))
        invariant dirty == if m.hires then Swept(d0, idx) else d0
      {
        RedrawByte(addr, m);
        idx := idx + 1;
        addr := addr + 1;
      }
      SweptAll(d0);
      refreshing := false;
    }
  }

  /** `after >> 8` and `after & 0xff` of `after = addr + 1` name the offset
      after the written one, wrapping at the end of the window. */
  lemma NextAddress(page: int, off: int)
    requires 0 <= page < 255 && 0 <= off < 256
    ensures var after := page * 256 + off + 1;
      0 <= after / 256 < 256 && 0 <= after % 256 < 256 &&
      Offset(after / 256, after % 256, 0x2000) == Next(Offset(page, off, 0x2000))
  {
    var a := page * 256 + off;
    var base := a % 0x2000;
    DivMod(a + 1, 0x2000, a / 0x2000 + (base + 1) / 0x2000, (base + 1) % 0x2000);
    assert ((a + 1) / 256) * 256 + (a + 1) % 256 == a + 1;
  }

  lemma TouchVisible(d: Region, idx: int, line: int, col: int)
    requires 0 <= idx && HiresVisible(idx) && HiresLine(idx) == line && ColOf(idx) == col
    ensures Touch(d, idx, true) == Widen(d, line, line + 1, col * 14 - 2, col * 14 + 12)
  {
  }

  /** A line's box lies in the screen's. */
  lemma LineInside(d0: Region, d: Region, idx: int)
    requires 0 <= idx < 0x2000 && Grows(d0, d) && Grows(d, Widen(d0, 0, 192, -2, 558))
    ensures Grows(d0, Touch(d, idx, true)) && Grows(Touch(d, idx, true), Widen(d0, 0, 192, -2, 558))
  {
    if HiresVisible(idx) {
      HiresCell(idx);
      var line, col := HiresLine(idx), ColOf(idx);
      BoxWithin(d0, d, line, line + 1, col * 14 - 2, col * 14 + 12, 192, -2, 558);
      TouchVisible(d, idx, line, col);
    }
  }

  lemma FirstTouch(d: Region)
    ensures Touch(d, 0, true) == Widen(d, 0, 1, -2, 12)
  {
    FirstLine();
  }

  lemma LastTouch(d: Region)
    ensures Touch(d, 0x1FF7, true) == Widen(d, 191, 192, 544, 558)
  {
    LastLine();
  }

  /** One refresh step keeps the dirty rectangle between its value `d0`
      before the loop and the whole image, and the first and last visible
      offsets reach the image's corners. */
  lemma StepBounds(d0: Region, d: Region, idx: int)
    requires 0 <= idx < 0x2000 && Grows(d0, d) && Grows(d, Widen(d0, 0, 192, -2, 558))
    ensures Grows(d0, Touch(d, idx, true)) && Grows(Touch(d, idx, true), Widen(d0, 0, 192, -2, 558))
    ensures idx == 0 ==> Touch(d, idx, true).top <= 0 && Touch(d, idx, true).left <= -2
    ensures idx == 0x1FF7 ==> Touch(d, idx, true).bottom >= 192 && Touch(d, idx, true).right >= 558
  {
    LineInside(d0, d, idx);
    if idx == 0 {
      FirstTouch(d);
    } else if idx == 0x1FF7 {
      LastTouch(d);
    }
  }

  lemma {:induction false} SweptBounds(d0: Region, n: nat)
    requires n <= 0x2000
    ensures Grows(d0, Swept(d0, n)) && Grows(Swept(d0, n), Widen(d0, 0, 192, -2, 558))
    ensures n > 0 ==> Swept(d0, n).top <= 0 && Swept(d0, n).left <= -2
    ensures n > 0x1FF7 ==> Swept(d0, n).bottom >= 192 && Swept(d0, n).right >= 558
  {
    if n > 0 {
      SweptBounds(d0, n - 1);
      StepBounds(d0, Swept(d0, n - 1), n - 1);
    }
  }

  /** Sweeping the whole window widens the rectangle by the image's box,
      two half-pixels past each side. */
  lemma SweptAll(d0: Region)
    ensures Swept(d0, 0x2000) == Widen(d0, 0, 192, -2, 558)
  {
    SweptBounds(d0, 0x2000);
    Squeeze(d0, Swept(d0, 0x2000), 192, -2, 558);
  }
}
