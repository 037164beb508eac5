/**
 * What the two video-mode controllers (js/canvas.ts:915-1291 and
 * js/gl.ts:572-1066) share: the saved state, the double hi-res
 * derivation, the AN3 shift register behind the double hi-res sub-modes,
 * and the test `updateImage` makes on a dirty rectangle.
 */
module ModeState {
  import opened Screen

  /** `VideoModesState`: the eight fields `getState` reports. */
  datatype VideoModesState = VideoModesState(
    text: bool, mixed: bool, hires: bool, page: int, col80: bool,
    altChar: bool, an3: bool, flag: int)

  /** `doubleHiresMode`, as `_refresh` derives it. */
  predicate DoubleHires(an3: bool, hires: bool, col80: bool) {
    !an3 && hires && col80
  }

  /** `((flag << 1) | (_80colMode ? 0x0 : 0x1)) & 0x3`: the register keeps
      the previous low bit and shifts in whether 80 columns is off. */
  function AnFlag(flag: int, col80: bool): (f: int)
    ensures 0 <= f < 4
    ensures f % 2 == (if col80 then 0 else 1) && f / 2 == flag % 2
  {
    2 * (flag % 2) + (if col80 then 0 else 1)
  }

  /** Two AN3 pulses choose the sub-mode by themselves: whatever the flag
      held, it ends up recording the 80-column switch at the first pulse in
      bit 1 and at the second in bit 0. */
  lemma FlagAfterTwoPulses(flag: int, first: bool, second: bool)
    ensures AnFlag(AnFlag(flag, first), second) == 2 * (if first then 0 else 1) + (if second then 0 else 1)
  {
    var f := AnFlag(flag, first);
    assert f % 2 == (if first then 0 else 1);
  }

  /** `mainDirty.bottom !== -1`: `updateImage` only checks the bottom. */
  predicate Pending(d: Region) {
    d.bottom != -1
  }

  /** What `blit` returns: true with an override image; in hi-res graphics
      when the hi-res page, or in mixed mode the text page, has a pending
      change; otherwise when the text/lo-res page has one. */
  predicate Blitted(altData: bool, text: bool, mixed: bool, hires: bool, gr: Region, hgr: Region) {
    if altData then true
    else if hires && !text then Pending(hgr) || (mixed && Pending(gr))
    else Pending(gr)
  }

  /** A refresh widens the text/lo-res rectangle to the image's bottom, and
      the hi-res one at least whenever hi-res is on, so a `blit` after a
      refresh always reports a change. */
  lemma BlitAfterRefresh(altData: bool, text: bool, mixed: bool, hires: bool, gr: Region, hgr: Region)
    requires gr.bottom >= 192 && (hires ==> hgr.bottom >= 192)
    ensures Blitted(altData, text, mixed, hires, gr, hgr)
  {
  }

  /** The sentinel never counts as a change. */
  lemma NotDirtyIsClean(altData: bool, text: bool, mixed: bool, hires: bool)
    ensures Blitted(altData, text, mixed, hires, NotDirty, NotDirty) <==> altData
  {
  }
}
