/**
 * `VideoModes2D` (js/canvas.ts:915-1291): the canvas renderer's soft
 * switches, the pages it draws from, and `blit`, which refreshes the pages
 * when a mode has changed and reports whether the selected page has
 * anything new to show.
 */
module Modes2D {
  import opened Screen
  import opened Glyphs
  import opened ModeState
  import Lores2D
  import Hires2D

  /** The objects of a pair of pages that `blit` may change. */
  predicate Apart(gr: Lores2D.LoresPage2D, hgr: Hires2D.HiresPage2D) {
    gr.pixels != hgr.pixels && gr.buf0 != hgr.buf0 && gr.buf0 != hgr.buf1 &&
    gr.buf1 != hgr.buf0 && gr.buf1 != hgr.buf1
  }

  /** What a refresh leaves in the two pages' images: every lo-res pixel
      redrawn from memory, every hi-res byte replayed in address order. */
  ghost predicate Redrawn(gr: Lores2D.LoresPage2D, hgr: Hires2D.HiresPage2D, m: Modes,
                          grBefore: seq<Color>, hgrBefore: seq<Color>)
    requires gr.Valid() && hgr.Valid() && |grBefore| == N && |hgrBefore| == N
    reads gr, hgr, gr.pixels, gr.buf0, gr.buf1, hgr.pixels, hgr.buf0, hgr.buf1
  {
    gr.pixels.Length == N &&
    (forall p :: 0 <= p < N ==>
      gr.pixels[p] == Lores2D.RedrawPixel(m, gr.Looks(), gr.buf0[..], gr.buf1[..], p, grBefore[p])) &&
    hgr.pixels[..] == Hires2D.Replay(m, hgr.Looks(), hgr.buf0[..], hgr.buf1[..], 0x2000, hgrBefore)
  }

  /** `hgr.refresh(); gr.refresh();`: both selected pages redrawn from
      their memory, their dirty rectangles widened to the whole image. */
  method RefreshPages(gr: Lores2D.LoresPage2D, hgr: Hires2D.HiresPage2D, m: Modes)
    requires gr.Valid() && hgr.Valid() && Apart(gr, hgr)
    requires (m.col80 || m.dhr) ==> gr.HasAux() && hgr.HasAux()
    modifies gr, hgr, gr.pixels, gr.buf0, gr.buf1, hgr.pixels, hgr.buf0, hgr.buf1
    ensures gr.buf0[..] == old(gr.buf0[..]) && gr.buf1[..] == old(gr.buf1[..])
    ensures hgr.buf0[..] == old(hgr.buf0[..]) && hgr.buf1[..] == old(hgr.buf1[..])
    ensures gr.dirty == Widen(old(gr.dirty), 0, 192, 0, 560)
    ensures hgr.dirty == Widen(old(hgr.dirty), 0, 383, -2, 562)
    ensures Redrawn(gr, hgr, m, old(gr.pixels[..]), old(hgr.pixels[..]))
  {
    hgr.Refresh(m);
    gr.Refresh(m);
  }

  /** The body of `blit` on the selected pages: refresh them when asked,
      report through `updateImage` whether the image shown has a pending
      change, and reset both dirty rectangles. */
  method BlitPages(gr: Lores2D.LoresPage2D, hgr: Hires2D.HiresPage2D, m: Modes, refresh: bool, altData: bool)
    returns (blitted: bool)
    requires gr.Valid() && hgr.Valid() && Apart(gr, hgr)
    requires (m.col80 || m.dhr) ==> gr.HasAux() && hgr.HasAux()
    modifies gr, hgr, gr.pixels, gr.buf0, gr.buf1, hgr.pixels, hgr.buf0, hgr.buf1
    ensures gr.buf0[..] == old(gr.buf0[..]) && gr.buf1[..] == old(gr.buf1[..])
    ensures hgr.buf0[..] == old(hgr.buf0[..]) && hgr.buf1[..] == old(hgr.buf1[..])
    ensures blitted == Blitted(altData, m.text, m.mixed, m.hires,
      if refresh then Widen(old(gr.dirty), 0, 192, 0, 560) else old(gr.dirty),
      if refresh then Widen(old(hgr.dirty), 0, 383, -2, 562) else old(hgr.dirty))
    ensures refresh ==> blitted
    ensures gr.dirty == NotDirty && hgr.dirty == NotDirty
    ensures if refresh then Redrawn(gr, hgr, m, old(gr.pixels[..]), old(hgr.pixels[..]))
      else gr.pixels[..] == old(gr.pixels[..]) && hgr.pixels[..] == old(hgr.pixels[..])
  {
    if refresh {
      RefreshPages(gr, hgr, m);
      BlitAfterRefresh(altData, m.text, m.mixed, m.hires, gr.dirty, hgr.dirty);
    }
    if altData {
      blitted := true;
    } else if m.hires && !m.text {
      blitted := Pending(hgr.dirty) || (m.mixed && Pending(gr.dirty));
    } else {
      blitted := Pending(gr.dirty);
    }
    hgr.dirty := NotDirty;
    gr.dirty := NotDirty;
  }

  class VideoModes2D {
    /** Whether the machine is a IIe: only then do the 80-column,
        alternate-character and AN3 switches exist. */
    const e: bool
    /** `_grs` and `_hgrs`: the text/lo-res and hi-res pages 1 and 2. */
    const gr1: Lores2D.LoresPage2D
    const gr2: Lores2D.LoresPage2D
    const hgr1: Hires2D.HiresPage2D
    const hgr2: Hires2D.HiresPage2D
    var text: bool
    var mixed: bool
    var hires: bool
    var page: int
    var col80: bool
    var altChar: bool
    var an3: bool
    var dhr: bool
    var flag: int
    var mono: bool
    var composited: bool
    var smoothed: bool
    var palette: int
    var refreshFlag: bool

    predicate Valid()
      reads this
    {
      (page == 1 || page == 2) && dhr == DoubleHires(an3, hires, col80) &&
      gr1.Valid() && gr2.Valid() && hgr1.Valid() && hgr2.Valid() &&
      gr1.pageNo == 1 && gr2.pageNo == 2 && hgr1.pageNo == 1 && hgr2.pageNo == 2 &&
      Apart(gr1, hgr1) && Apart(gr2, hgr2)
    }

    /** The flags as the pages read them. */
    function Current(): Modes
      reads this
    {
      Modes(text, mixed, hires, page, col80, altChar, an3, dhr, flag, mono, composited, palette)
    }

    /** `this._grs[this.pageMode - 1]`. */
    function Gr(): Lores2D.LoresPage2D
      reads this
    {
      if page == 1 then gr1 else gr2
    }

    function Hgr(): Hires2D.HiresPage2D
      reads this
    {
      if page == 1 then hgr1 else hgr2
    }

    /** Registering the four pages (`setLoresPage`, `setHiresPage`) and then
        `reset`. */
    constructor (e: bool, gr1: Lores2D.LoresPage2D, gr2: Lores2D.LoresPage2D,
                 hgr1: Hires2D.HiresPage2D, hgr2: Hires2D.HiresPage2D)
      requires gr1.Valid() && gr2.Valid() && hgr1.Valid() && hgr2.Valid()
      requires gr1.pageNo == 1 && gr2.pageNo == 2 && hgr1.pageNo == 1 && hgr2.pageNo == 2
      requires Apart(gr1, hgr1) && Apart(gr2, hgr2)
      ensures Valid() && this.e == e && this.gr1 == gr1 && this.gr2 == gr2
      ensures this.hgr1 == hgr1 && this.hgr2 == hgr2
      ensures text && !mixed && hires && page == 1 && !col80 && !altChar && an3 && flag == 0
      ensures !mono && palette == 0 && refreshFlag
    {
      this.e := e;
      this.gr1 := gr1;
      this.gr2 := gr2;
      this.hgr1 := hgr1;
      this.hgr2 := hgr2;
      text, mixed, hires, page := true, false, true, 1;
      col80, altChar, an3, flag := false, false, true, 0;
      dhr := false;
      mono, composited, smoothed, palette := false, false, false, 0;
      refreshFlag := true;
    }

    /** `_refresh`: re-derive double hi-res and mark the pages for a refresh. */
    method RefreshModes()
      modifies this`dhr, this`refreshFlag
      ensures dhr == DoubleHires(an3, hires, col80) && refreshFlag
    {
      dhr := !an3 && hires && col80;
      refreshFlag := true;
    }

    /** `reset`: text page 1, 40 columns, AN3 on, flag cleared. */
    method Reset()
      requires Valid()
      modifies this`text, this`mixed, this`hires, this`page, this`col80, this`altChar
      modifies this`flag, this`an3, this`dhr, this`refreshFlag
      ensures Valid() && refreshFlag && !dhr
      ensures GetState() == VideoModesState(true, false, true, 1, false, false, true, 0)
    {
      text, mixed, hires, page := true, false, true, 1;
      col80, altChar := false, false;
      flag := 0;
      an3 := true;
      RefreshModes();
    }

    /** `text`: setting text mode also clears the double hi-res sub-mode. */
    method Text(on: bool)
      requires Valid()
      modifies this`text, this`flag, this`dhr, this`refreshFlag
      ensures Valid() && text == on && dhr == old(dhr)
      ensures flag == if on then 0 else old(flag)
      ensures refreshFlag == (old(refreshFlag) || old(text) != on)
    {
      var old_ := text;
      text := on;
      if on {
        flag := 0;
      }
      if old_ != on {
        RefreshModes();
      }
    }

    /** `_80col`: a no-op on a II or II+. */
    method Col80(on: bool)
      requires Valid()
      modifies this`col80, this`dhr, this`refreshFlag
      ensures Valid() && col80 == (if e then on else old(col80))
      ensures refreshFlag == (old(refreshFlag) || (e && old(col80) != on))
    {
      if !e {
        return;
      }
      var old_ := col80;
      col80 := on;
      if old_ != on {
        RefreshModes();
      }
    }

    /** `altChar`: a no-op on a II or II+. */
    method AltChar(on: bool)
      requires Valid()
      modifies this`altChar, this`dhr, this`refreshFlag
      ensures Valid() && altChar == (if e then on else old(altChar)) && dhr == old(dhr)
      ensures refreshFlag == (old(refreshFlag) || (e && old(altChar) != on))
    {
      if !e {
        return;
      }
      var old_ := altChar;
      altChar := on;
      if old_ != on {
        RefreshModes();
      }
    }

    /** `hires`: leaving hi-res clears the double hi-res sub-mode. */
    method Hires(on: bool)
      requires Valid()
      modifies this`hires, this`flag, this`dhr, this`refreshFlag
      ensures Valid() && hires == on
      ensures flag == if on then old(flag) else 0
      ensures refreshFlag == (old(refreshFlag) || old(hires) != on)
    {
      var old_ := hires;
      hires := on;
      if !on {
        flag := 0;
      }
      if old_ != on {
        RefreshModes();
      }
    }

    /** `an3`: on a IIe, every write that sets AN3 shifts the 80-column
        state into the sub-mode register, changed or not. */
    method An3(on: bool)
      requires Valid()
      modifies this`an3, this`flag, this`dhr, this`refreshFlag
      ensures Valid() && an3 == (if e then on else old(an3))
      ensures flag == if e && on then AnFlag(old(flag), col80) else old(flag)
      ensures e && on ==> 0 <= flag < 4
      ensures refreshFlag == (old(refreshFlag) || (e && old(an3) != on))
    {
      if !e {
        return;
      }
      var old_ := an3;
      an3 := on;
      if on {
        flag := AnFlag(flag, col80);
      }
      if old_ != on {
        RefreshModes();
      }
    }

    /** `doubleHires`: AN3 is active low. */
    method DoubleHiresSwitch(on: bool)
      requires Valid()
      modifies this`an3, this`flag, this`dhr, this`refreshFlag
      ensures Valid() && an3 == (if e then !on else old(an3))
      ensures flag == if e && !on then AnFlag(old(flag), col80) else old(flag)
      ensures refreshFlag == (old(refreshFlag) || (e && old(an3) != !on))
    {
      An3(!on);
    }

    method Mixed(on: bool)
      requires Valid()
      modifies this`mixed, this`dhr, this`refreshFlag
      ensures Valid() && mixed == on && dhr == old(dhr)
      ensures refreshFlag == (old(refreshFlag) || old(mixed) != on)
    {
      var old_ := mixed;
      mixed := on;
      if old_ != on {
        RefreshModes();
      }
    }

    method Page(pageNo: int)
      requires Valid() && (pageNo == 1 || pageNo == 2)
      modifies this`page, this`dhr, this`refreshFlag
      ensures Valid() && page == pageNo && dhr == old(dhr)
      ensures refreshFlag == (old(refreshFlag) || old(page) != pageNo)
    {
      var old_ := page;
      page := pageNo;
      if old_ != pageNo {
        RefreshModes();
      }
    }

    /** `mono` and `composite`: store the setting and mark a refresh. */
    method Mono(on: bool)
      requires Valid()
      modifies this`mono, this`dhr, this`refreshFlag
      ensures Valid() && mono == on && refreshFlag && dhr == old(dhr)
    {
      mono := on;
      RefreshModes();
    }

    method Composite(value: bool)
      requires Valid()
      modifies this`composited, this`dhr, this`refreshFlag
      ensures Valid() && composited == value && refreshFlag && dhr == old(dhr)
    {
      composited := value;
      RefreshModes();
    }

    /** `smoothing`: store the setting; the image-rendering styles it sets
        on the screen element are not modelled, and nothing is redrawn. */
    method Smoothing(value: bool)
      requires Valid()
      modifies this`smoothed
      ensures Valid() && smoothed == value && Current() == old(Current())
    {
      smoothed := value;
    }

    /** `palette`: only takes effect when the screen element has a parent
        in the page (`parented`). */
    method Palette(value: int, parented: bool)
      requires Valid()
      modifies this`palette, this`dhr, this`refreshFlag
      ensures Valid() && dhr == old(dhr)
      ensures palette == (if parented then value else old(palette))
      ensures refreshFlag == (old(refreshFlag) || parented)
    {
      if parented {
        palette := value;
        RefreshModes();
      }
    }

    /** `getState`: the eight switches, the sub-mode register included. */
    function GetState(): (s: VideoModesState)
      reads this
      ensures s.flag == flag && s.page == page && s.an3 == an3 && s.col80 == col80
    {
      VideoModesState(text, mixed, hires, page, col80, altChar, an3, flag)
    }

    /** `setState`: restore the eight switches and mark a refresh. */
    method SetState(s: VideoModesState)
      requires Valid() && (s.page == 1 || s.page == 2)
      modifies this`text, this`mixed, this`hires, this`page, this`col80, this`altChar
      modifies this`an3, this`flag, this`dhr, this`refreshFlag
      ensures Valid() && GetState() == s && refreshFlag
    {
      text, mixed, hires, page := s.text, s.mixed, s.hires, s.page;
      col80, altChar, an3, flag := s.col80, s.altChar, s.an3, s.flag;
      RefreshModes();
    }

    /** `blit`: refresh the selected pages if a mode changed, report whether
        the image shown has anything new, and reset both dirty rectangles. */
    method Blit(altData: bool) returns (blitted: bool)
      requires Valid() && (col80 ==> Gr().HasAux() && Hgr().HasAux())
      modifies this`refreshFlag, Gr(), Hgr(), Gr().pixels, Gr().buf0, Gr().buf1
      modifies Hgr().pixels, Hgr().buf0, Hgr().buf1
      ensures Valid() && !refreshFlag && Gr() == old(Gr()) && Hgr() == old(Hgr()) && Current() == old(Current())
      ensures var gr, hgr := old(Gr()), old(Hgr());
        gr.buf0[..] == old(gr.buf0[..]) && gr.buf1[..] == old(gr.buf1[..]) &&
        hgr.buf0[..] == old(hgr.buf0[..]) && hgr.buf1[..] == old(hgr.buf1[..])
      ensures var gr, hgr := old(Gr()), old(Hgr());
        blitted == Blitted(altData, old(text), old(mixed), old(hires),
          if old(refreshFlag) then Widen(old(gr.dirty), 0, 192, 0, 560) else old(gr.dirty),
          if old(refreshFlag) then Widen(old(hgr.dirty), 0, 383, -2, 562) else old(hgr.dirty))
      ensures old(refreshFlag) ==> blitted
      ensures old(Gr()).dirty == NotDirty && old(Hgr()).dirty == NotDirty
      ensures var gr, hgr := old(Gr()), old(Hgr());
        if old(refreshFlag) then Redrawn(gr, hgr, old(Current()), old(gr.pixels[..]), old(hgr.pixels[..]))
        else gr.pixels[..] == old(gr.pixels[..]) && hgr.pixels[..] == old(hgr.pixels[..])
    {
      var refresh := refreshFlag;
      refreshFlag := false;
      blitted := BlitPages(Gr(), Hgr(), Current(), refresh, altData);
    }

    /** `getText`: the selected text page as text. */
    method GetText() returns (s: string)
      requires Valid()
      ensures s == TextDump(Gr().e && col80, Gr().e, Gr().buf0[..], Gr().buf1[..])
    {
      s := Gr().GetText(Current());
    }
  }
}
