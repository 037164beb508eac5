/**
 * `VideoModesGL` (js/gl.ts:572-1066): the WebGL renderer's soft switches,
 * the pages it draws from, the monitor configuration it hands to the
 * screen emulator, and `blit`. Unlike the canvas renderer it keeps no AN3
 * sub-mode register: `flag` stays 0.
 */
module ModesGL {
  import opened Screen
  import opened Glyphs
  import opened ModeState
  import LoresGL
  import HiresGL
  import opened Optional

  /** The five monitor set-ups (`monitorComposite`, `monitorRGB`,
      `monitorGreyscale`, `monitorBlackAndWhite`, `monitorMonochrome`). */
  datatype Monitor = CompositeMonitor | RgbMonitor | GreyscaleMonitor | BlackAndWhiteMonitor | MonochromeMonitor

  /** The part of a `DisplayConfiguration` the controller itself changes:
      which set-up it is, `videoWhiteOnly` and `displayScanlineLevel`. */
  datatype DisplayConfig = DisplayConfig(monitor: Monitor, whiteOnly: bool, scanlineLevel: real)

  /** A freshly built set-up: colour allowed, scan lines at half strength. */
  function Fresh(monitor: Monitor): (c: DisplayConfig)
    ensures c.monitor == monitor && !c.whiteOnly && c.scanlineLevel == 0.5
  {
    DisplayConfig(monitor, false, 0.5)
  }

  /** The set-up `palette` chooses: 3 black and white, 2 greyscale, any other
      non-zero value RGB, 0 composite. */
  function PaletteMonitor(palette: int): (mon: Monitor)
    ensures mon == CompositeMonitor <==> palette == 0
    ensures mon != MonochromeMonitor
  {
    if palette == 3 then BlackAndWhiteMonitor
    else if palette == 2 then GreyscaleMonitor
    else if palette != 0 then RgbMonitor
    else CompositeMonitor
  }

  /** The objects of a pair of pages that `blit` may change. */
  predicate Apart(gr: LoresGL.LoresPageGL, hgr: HiresGL.HiresPageGL) {
    gr.pixels != hgr.pixels && gr.buf0 != hgr.buf0 && gr.buf0 != hgr.buf1 &&
    gr.buf1 != hgr.buf0 && gr.buf1 != hgr.buf1
  }

  /** What a refresh leaves in the two pages' images: every text/lo-res
      pixel redrawn from memory, every hi-res byte replayed in address order. */
  ghost predicate Redrawn(gr: LoresGL.LoresPageGL, hgr: HiresGL.HiresPageGL, m: Modes,
                          grBefore: seq<Color>, hgrBefore: seq<Color>)
    requires gr.Valid() && hgr.Valid() && |grBefore| == N && |hgrBefore| == N
    reads gr, hgr, gr.pixels, gr.buf0, gr.buf1, hgr.pixels, hgr.buf0, hgr.buf1
  {
    (forall p :: 0 <= p < N ==>
      gr.pixels[p] == LoresGL.RedrawPixel(m, gr.Looks(), gr.buf0[..], gr.buf1[..], p, grBefore[p])) &&
    hgr.pixels[..] == HiresGL.Replay(m, hgr.buf0[..], hgr.buf1[..], 0x2000, hgrBefore)
  }

  /** `hgr.refresh(); gr.refresh();`: the text/lo-res rectangle always
      widens to the whole image, the hi-res one only in hi-res mode. */
  method RefreshPages(gr: LoresGL.LoresPageGL, hgr: HiresGL.HiresPageGL, m: Modes)
    requires gr.Valid() && hgr.Valid() && Apart(gr, hgr)
    requires m.col80 ==> gr.HasAux() && hgr.HasAux()
    modifies gr, hgr, gr.pixels, gr.buf0, gr.buf1, hgr.pixels, hgr.buf0, hgr.buf1
    ensures gr.buf0[..] == old(gr.buf0[..]) && gr.buf1[..] == old(gr.buf1[..])
    ensures hgr.buf0[..] == old(hgr.buf0[..]) && hgr.buf1[..] == old(hgr.buf1[..])
    ensures gr.dirty == Widen(old(gr.dirty), 0, 192, 0, 560)
    ensures hgr.dirty == if m.hires then Widen(old(hgr.dirty), 0, 192, -2, 558) else old(hgr.dirty)
    ensures Redrawn(gr, hgr, m, old(gr.pixels[..]), old(hgr.pixels[..]))
  {
    hgr.Refresh(m);
    gr.Refresh(m);
  }

  /** The body of `blit` on the selected pages: refresh them when asked,
      report through `updateImage` whether the image shown has a pending
      change, and reset both dirty rectangles. */
  method BlitPages(gr: LoresGL.LoresPageGL, hgr: HiresGL.HiresPageGL, m: Modes, refresh: bool, altData: bool)
    returns (blitted: bool)
    requires gr.Valid() && hgr.Valid() && Apart(gr, hgr)
    requires m.col80 ==> gr.HasAux() && hgr.HasAux()
    modifies gr, hgr, gr.pixels, gr.buf0, gr.buf1, hgr.pixels, hgr.buf0, hgr.buf1
    ensures gr.buf0[..] == old(gr.buf0[..]) && gr.buf1[..] == old(gr.buf1[..])
    ensures hgr.buf0[..] == old(hgr.buf0[..]) && hgr.buf1[..] == old(hgr.buf1[..])
    ensures blitted == Blitted(altData, m.text, m.mixed, m.hires,
      if refresh then Widen(old(gr.dirty), 0, 192, 0, 560) else old(gr.dirty),
      if refresh && m.hires then Widen(old(hgr.dirty), 0, 192, -2, 558) else old(hgr.dirty))
    ensures refresh ==> blitted
    ensures gr.dirty == NotDirty && hgr.dirty == NotDirty
    ensures if refresh then Redrawn(gr, hgr, m, old(gr.pixels[..]), old(hgr.pixels[..]))
      else gr.pixels[..] == old(gr.pixels[..]) && hgr.pixels[..] == old(hgr.pixels[..])
  {
    if refresh {
      RefreshPages(gr, hgr, m);
      BlitAfterRefresh(altData, m.text, m.mixed, m.hires, gr.dirty, hgr.dirty);
    }
    if altData {
      blitted := true;
    } else if m.hires && !m.text {
      blitted := Pending(hgr.dirty) || (m.mixed && Pending(gr.dirty));
    } else {
      blitted := Pending(gr.dirty);
    }
    hgr.dirty := NotDirty;
    gr.dirty := NotDirty;
  }

  class VideoModesGL {
    /** Whether the machine is a IIe: only then do the 80-column,
        alternate-character and AN3 switches exist. */
    const e: bool
    /** `_grs` and `_hgrs`: the text/lo-res and hi-res pages 1 and 2. */
    const gr1: LoresGL.LoresPageGL
    const gr2: LoresGL.LoresPageGL
    const hgr1: HiresGL.HiresPageGL
    const hgr2: HiresGL.HiresPageGL
    var text: bool
    var mixed: bool
    var hires: bool
    var page: int
    var col80: bool
    var altChar: bool
    var an3: bool
    var dhr: bool
    var mono: bool
    var composited: bool
    var smoothed: bool
    var palette: int
    var scanlines: bool
    var opacity: real
    var refreshFlag: bool
    /** `_displayConfig`: absent until `init` has run. */
    var config: Option<DisplayConfig>
    /** The configuration last handed to the screen emulator. */
    var shown: Option<DisplayConfig>

    predicate Valid()
      reads this
    {
      (page == 1 || page == 2) && dhr == DoubleHires(an3, hires, col80) &&
      gr1.Valid() && gr2.Valid() && hgr1.Valid() && hgr2.Valid() &&
      gr1.pageNo == 1 && gr2.pageNo == 2 && hgr1.pageNo == 1 && hgr2.pageNo == 2 &&
      Apart(gr1, hgr1) && Apart(gr2, hgr2)
    }

    /** The configuration `_refresh` derives from the switches: white only
        in text or monochrome mode, scan lines at the chosen opacity or off. */
    function Tuned(c: DisplayConfig): (t: DisplayConfig)
      reads this
      ensures t.monitor == c.monitor && t.whiteOnly == (text || mono)
      ensures t.scanlineLevel == if scanlines then opacity else 0.0
    {
      c.(whiteOnly := text || mono, scanlineLevel := if scanlines then opacity else 0.0)
    }

    /** The screen emulator shows the configuration the switches call for. */
    predicate InSync()
      reads this
    {
      config.Some? ==> shown == config && config.value == Tuned(config.value)
    }

    /** The flags as the pages read them; the sub-mode register is always 0. */
    function Current(): Modes
      reads this
    {
      Modes(text, mixed, hires, page, col80, altChar, an3, dhr, 0, mono, composited, palette)
    }

    function Gr(): LoresGL.LoresPageGL
      reads this
    {
      if page == 1 then gr1 else gr2
    }

    function Hgr(): HiresGL.HiresPageGL
      reads this
    {
      if page == 1 then hgr1 else hgr2
    }

    /** Registering the four pages (`setLoresPage`, `setHiresPage`) and then
        `reset`, before `init` has built a monitor set-up. */
    constructor (e: bool, gr1: LoresGL.LoresPageGL, gr2: LoresGL.LoresPageGL,
                 hgr1: HiresGL.HiresPageGL, hgr2: HiresGL.HiresPageGL)
      requires gr1.Valid() && gr2.Valid() && hgr1.Valid() && hgr2.Valid()
      requires gr1.pageNo == 1 && gr2.pageNo == 2 && hgr1.pageNo == 1 && hgr2.pageNo == 2
      requires Apart(gr1, hgr1) && Apart(gr2, hgr2)
      ensures Valid() && InSync() && this.e == e && this.gr1 == gr1 && this.gr2 == gr2
      ensures this.hgr1 == hgr1 && this.hgr2 == hgr2
      ensures GetState() == VideoModesState(true, false, true, 1, false, false, true, 0)
      ensures !mono && palette == 0 && !scanlines && opacity == 0.5 && refreshFlag
      ensures config.None? && shown.None?
    {
      this.e := e;
      this.gr1 := gr1;
      this.gr2 := gr2;
      this.hgr1 := hgr1;
      this.hgr2 := hgr2;
      text, mixed, hires, page := true, false, true, 1;
      col80, altChar, an3 := false, false, true;
      dhr := false;
      mono, composited, smoothed, palette := false, false, false, 0;
      scanlines, opacity := false, 0.5;
      config, shown := None, None;
      refreshFlag := true;
    }

    /** `init`, once the emulator is ready: the composite set-up as built,
        handed over without re-deriving it from the switches. */
    method Init()
      modifies this`config, this`shown
      ensures config == Some(Fresh(CompositeMonitor)) && shown == config
    {
      config := Some(Fresh(CompositeMonitor));
      shown := config;
    }

    /** `_refresh`: re-derive double hi-res, mark the pages for a refresh,
        and re-tune and hand over the monitor set-up when there is one. */
    method RefreshModes()
      modifies this`dhr, this`refreshFlag, this`config, this`shown
      ensures dhr == DoubleHires(an3, hires, col80) && refreshFlag && InSync()
      ensures config == if old(config).Some? then Some(Tuned(old(config).value)) else None
      ensures shown == if old(config).Some? then config else old(shown)
    {
      dhr := !an3 && hires && col80;
      refreshFlag := true;
      if config.Some? {
        config := Some(Tuned(config.value));
        shown := config;
      }
    }

    /** `reset`: text page 1, 40 columns, AN3 on. */
    method Reset()
      requires Valid()
      modifies this`text, this`mixed, this`hires, this`page, this`col80, this`altChar
      modifies this`an3, this`dhr, this`refreshFlag, this`config, this`shown
      ensures Valid() && InSync() && refreshFlag && !dhr
      ensures GetState() == VideoModesState(true, false, true, 1, false, false, true, 0)
    {
      text, mixed, hires, page := true, false, true, 1;
      col80, altChar := false, false;
      an3 := true;
      RefreshModes();
    }

    /** `text`: unlike the canvas renderer, the sub-mode is left alone. */
    method Text(on: bool)
      requires Valid()
      modifies this`text, this`dhr, this`refreshFlag, this`config, this`shown
      ensures Valid() && text == on && dhr == old(dhr)
      ensures refreshFlag == (old(refreshFlag) || old(text) != on)
      ensures old(InSync()) ==> InSync()
    {
      var old_ := text;
      text := on;
      if old_ != on {
        RefreshModes();
      }
    }

    /** `_80col`: a no-op on a II or II+. */
    method Col80(on: bool)
      requires Valid()
      modifies this`col80, this`dhr, this`refreshFlag, this`config, this`shown
      ensures Valid() && col80 == (if e then on else old(col80))
      ensures refreshFlag == (old(refreshFlag) || (e && old(col80) != on))
      ensures old(InSync()) ==> InSync()
    {
      if !e {
        return;
      }
      var old_ := col80;
      col80 := on;
      if old_ != on {
        RefreshModes();
      }
    }

    /** `altChar`: a no-op on a II or II+. */
    method AltChar(on: bool)
      requires Valid()
      modifies this`altChar, this`dhr, this`refreshFlag, this`config, this`shown
      ensures Valid() && altChar == (if e then on else old(altChar)) && dhr == old(dhr)
      ensures refreshFlag == (old(refreshFlag) || (e && old(altChar) != on))
      ensures old(InSync()) ==> InSync()
    {
      if !e {
        return;
      }
      var old_ := altChar;
      altChar := on;
      if old_ != on {
        RefreshModes();
      }
    }

    method Hires(on: bool)
      requires Valid()
      modifies this`hires, this`dhr, this`refreshFlag, this`config, this`shown
      ensures Valid() && hires == on
      ensures refreshFlag == (old(refreshFlag) || old(hires) != on)
      ensures old(InSync()) ==> InSync()
    {
      var old_ := hires;
      hires := on;
      if old_ != on {
        RefreshModes();
      }
    }

    /** `an3`: a no-op on a II or II+; no sub-mode register is kept. */
    method An3(on: bool)
      requires Valid()
      modifies this`an3, this`dhr, this`refreshFlag, this`config, this`shown
      ensures Valid() && an3 == (if e then on else old(an3))
      ensures refreshFlag == (old(refreshFlag) || (e && old(an3) != on))
      ensures old(InSync()) ==> InSync()
    {
      if !e {
        return;
      }
      var old_ := an3;
      an3 := on;
      if old_ != on {
        RefreshModes();
      }
    }

    /** `doubleHires`: AN3 is active low. */
    method DoubleHiresSwitch(on: bool)
      requires Valid()
      modifies this`an3, this`dhr, this`refreshFlag, this`config, this`shown
      ensures Valid() && an3 == (if e then !on else old(an3))
      ensures e && hires && col80 ==> dhr == on
      ensures refreshFlag == (old(refreshFlag) || (e && old(an3) != !on))
      ensures old(InSync()) ==> InSync()
    {
      An3(!on);
    }

    method Mixed(on: bool)
      requires Valid()
      modifies this`mixed, this`dhr, this`refreshFlag, this`config, this`shown
      ensures Valid() && mixed == on && dhr == old(dhr)
      ensures refreshFlag == (old(refreshFlag) || old(mixed) != on)
      ensures old(InSync()) ==> InSync()
    {
      var old_ := mixed;
      mixed := on;
      if old_ != on {
        RefreshModes();
      }
    }

    method Page(pageNo: int)
      requires Valid() && (pageNo == 1 || pageNo == 2)
      modifies this`page, this`dhr, this`refreshFlag, this`config, this`shown
      ensures Valid() && page == pageNo && dhr == old(dhr)
      ensures refreshFlag == (old(refreshFlag) || old(page) != pageNo)
      ensures old(InSync()) ==> InSync()
    {
      var old_ := page;
      page := pageNo;
      if old_ != pageNo {
        RefreshModes();
      }
    }

    /** `mono`: the monochrome set-up, or back to composite whatever the
        palette, then a refresh. */
    method Mono(on: bool)
      requires Valid()
      modifies this`mono, this`dhr, this`refreshFlag, this`config, this`shown
      ensures Valid() && InSync() && mono == on && refreshFlag && dhr == old(dhr)
      ensures config.Some? && config.value.monitor == (if on then MonochromeMonitor else CompositeMonitor)
    {
      mono := on;
      config := Some(Fresh(if on then MonochromeMonitor else CompositeMonitor));
      RefreshModes();
    }

    /** `scanlines` and `opacity`: the scan-line level follows on refresh. */
    method Scanlines(on: bool)
      requires Valid()
      modifies this`scanlines, this`dhr, this`refreshFlag, this`config, this`shown
      ensures Valid() && InSync() && scanlines == on && refreshFlag && dhr == old(dhr)
      ensures config.Some? ==> config.value.scanlineLevel == (if on then opacity else 0.0)
    {
      scanlines := on;
      RefreshModes();
    }

    method Opacity(value: real)
      requires Valid()
      modifies this`opacity, this`dhr, this`refreshFlag, this`config, this`shown
      ensures Valid() && InSync() && opacity == value && refreshFlag && dhr == old(dhr)
      ensures config.Some? ==> config.value.scanlineLevel == (if scanlines then value else 0.0)
    {
      opacity := value;
      RefreshModes();
    }

    /** `composite`: recorded only, the GL pages have no composite shading. */
    method Composite(value: bool)
      modifies this`composited
      ensures composited == value
    {
      composited := value;
    }

    /** `smoothing`: the CSS rendering hint is left out; a refresh follows. */
    method Smoothing(value: bool)
      requires Valid()
      modifies this`smoothed, this`dhr, this`refreshFlag, this`config, this`shown
      ensures Valid() && InSync() && smoothed == value && refreshFlag && dhr == old(dhr)
    {
      smoothed := value;
      RefreshModes();
    }

    /** `palette`: the set-up that palette calls for, then a refresh. */
    method Palette(value: int)
      requires Valid()
      modifies this`palette, this`dhr, this`refreshFlag, this`config, this`shown
      ensures Valid() && InSync() && palette == value && refreshFlag && dhr == old(dhr)
      ensures config.Some? && config.value.monitor == PaletteMonitor(value)
    {
      palette := value;
      config := Some(Fresh(PaletteMonitor(value)));
      RefreshModes();
    }

    /** `getState`: the seven switches; the sub-mode is reported as 0. */
    function GetState(): (s: VideoModesState)
      reads this
      ensures s.flag == 0 && s.page == page && s.an3 == an3 && s.col80 == col80
    {
      VideoModesState(text, mixed, hires, page, col80, altChar, an3, 0)
    }

    /** `setState`: restore the seven switches; a saved sub-mode is dropped. */
    method SetState(s: VideoModesState)
      requires Valid() && (s.page == 1 || s.page == 2)
      modifies this`text, this`mixed, this`hires, this`page, this`col80, this`altChar
      modifies this`an3, this`dhr, this`refreshFlag, this`config, this`shown
      ensures Valid() && InSync() && GetState() == s.(flag := 0) && refreshFlag
    {
      text, mixed, hires, page := s.text, s.mixed, s.hires, s.page;
      col80, altChar, an3 := s.col80, s.altChar, s.an3;
      RefreshModes();
    }

    /** `blit`: refresh the selected pages if a mode changed, report whether
        the image shown has anything new, and reset both dirty rectangles. */
    method Blit(altData: bool) returns (blitted: bool)
      requires Valid() && (col80 ==> Gr().HasAux() && Hgr().HasAux())
      modifies this`refreshFlag, Gr(), Hgr(), Gr().pixels, Gr().buf0, Gr().buf1
      modifies Hgr().pixels, Hgr().buf0, Hgr().buf1
      ensures Valid() && !refreshFlag && Gr() == old(Gr()) && Hgr() == old(Hgr()) && Current() == old(Current())
      ensures var gr, hgr := old(Gr()), old(Hgr());
        gr.buf0[..] == old(gr.buf0[..]) && gr.buf1[..] == old(gr.buf1[..]) &&
        hgr.buf0[..] == old(hgr.buf0[..]) && hgr.buf1[..] == old(hgr.buf1[..])
      ensures var gr, hgr := old(Gr()), old(Hgr());
        blitted == Blitted(altData, old(text), old(mixed), old(hires),
          if old(refreshFlag) then Widen(old(gr.dirty), 0, 192, 0, 560) else old(gr.dirty),
          if old(refreshFlag) && old(hires) then Widen(old(hgr.dirty), 0, 192, -2, 558) else old(hgr.dirty))
      ensures old(refreshFlag) ==> blitted
      ensures old(Gr()).dirty == NotDirty && old(Hgr()).dirty == NotDirty
      ensures var gr, hgr := old(Gr()), old(Hgr());
        if old(refreshFlag) then Redrawn(gr, hgr, old(Current()), old(gr.pixels[..]), old(hgr.pixels[..]))
        else gr.pixels[..] == old(gr.pixels[..]) && hgr.pixels[..] == old(hgr.pixels[..])
    {
      var refresh := refreshFlag;
      refreshFlag := false;
      blitted := BlitPages(Gr(), Hgr(), Current(), refresh, altData);
    }

    /** `getText`: the selected text page as text. */
    method GetText() returns (s: string)
      requires Valid()
      ensures s == TextDump(Gr().e && col80, Gr().e, Gr().buf0[..], Gr().buf1[..])
    {
      s := Gr().GetText(Current());
    }
  }
}
