# apple2js video, keyboard, options and ProDOS directory header — a Dafny model

This project models the core of apple2js, an Apple II / IIe emulator that
runs in the browser:

- **Text/lo-res pages** (`LoresPage2D` in `js/canvas.ts`, `LoresPageGL` in
  `js/gl.ts`). A 1 KiB window of main memory, and on a IIe of auxiliary
  memory, is decoded byte by byte into a 560 x 192 image. This covers
  40- and 80-column text, inverse and flashing characters, the II/II+
  colour fringe, lo-res and double lo-res, mono and colour, the
  dirty rectangle, `refresh`, `blink` and `getText`.
- **Hi-res pages** (`HiresPage2D`, `HiresPageGL`). The 8 KiB window is
  decoded into single hi-res, double hi-res (seven 4-bit colour codes per
  four bytes), the 160-wide mode and the monochrome modes. This includes
  the canvas page's redraw of its neighbours after a double hi-res write,
  and the GL page's redraw of the byte after a single hi-res write.
- **Mode controllers** (`VideoModes2D`, `VideoModesGL`). The soft switches,
  the AN3 sub-mode register, `reset`, `getState`/`setState`, `blit`, and
  the monitor configuration the GL renderer hands to its screen emulator.
- **Keyboard mapping** (`js/components/util/keyboard.ts`). DOM key events
  and keycap clicks are turned into 7-bit Apple II codes, and the layout
  tables are reshaped into a grid.
- **Options registry** (`js/options.ts`). Components register option
  sections with a handler. Values persist as strings in the preference
  store and are coerced to the option's type on every read and write.
- **ProDOS directory header** (`js/formats/prodos/directory.ts`). `read`
  and `write` of the header fields of a directory key block.

Files: `screen.dfy` holds the shared surface, dirty rectangles, plans and
the interleaved address layout. `colors.dfy` holds the palettes.
`glyphs.dfy` covers screen codes and `getText`. `lores.dfy` and `hires.dfy`
hold the per-byte decoders. `lores2d.dfy`, `loresgl.dfy`, `hires2d.dfy` and
`hiresgl.dfy` hold the page classes. `modestate.dfy`, `modes2d.dfy` and
`modesgl.dfy` hold the controllers. The rest are `keyboard.dfy`,
`option.dfy` (an `Option` type), `options.dfy` and `directory.dfy`.

**How pages draw.** A page's image is an `array<Color>` of 560 x 192
pixels. Each `_write` is modelled as a *plan*: the block of pixels the
decoded byte paints, with its colour function. The source's drawing loops
(`Screen.Paint`) are proved to paint exactly that plan. Each page's
`refresh` and `blink` is proved to leave every pixel in the colour that the
memory byte owning it decodes to. For the text/lo-res pages this is a
pixel-wise function. For the hi-res pages it is a replay of the window in
order, because a hi-res byte's plan overlaps its neighbours' cells.

## Model

| member | source | states |
|---|---|---|
| Screen.ReadByte | js/canvas.ts:226-230 | A page read gives the stored byte within the window and 0 outside it; an absent auxiliary bank reads as 0 |
| Screen.Widen | js/canvas.ts:254-269 | The four dirty-rectangle updates give the least rectangle that contains the old one and covers the new box; every other such rectangle contains it |
| Screen.Paint | js/canvas.ts:317-327 | The nested drawing loop paints every pixel inside the plan's block with the plan's colour and leaves every other pixel unchanged |
| Screen.Offset | js/canvas.ts:233-234 | `((page << 8) \| off) & (size - 1)` lies inside the window |
| Screen.WindowAddress | js/canvas.ts:226-234 | Every offset of a 1 KiB window is reached from the bus page and offset its address splits into |
| Screen.WindowRow | js/canvas.ts:241-249 | The row `_write` derives from the bus page and offset (`ab \| cd \| e`) is the row of the window offset |
| Screen.AddressRow | js/canvas.ts:652-661 | For the 1 KiB and the 8 KiB window alike, the derived row is that of the offset's 1 KiB slice, and the column is that of the page offset |
| Screen.RowToBaseRoundTrip | js/canvas.ts:487-492 | For every visible cell, `rowToBase(row) + col` decodes back to that row and column |
| Screen.VisibleBase | js/canvas.ts:487-492 | Conversely, every visible window offset is `rowToBase(row) + col` of its own row and column |
| Screen.FirstCell | js/canvas.ts:241-252 | Offset 0 is the visible top-left cell |
| Screen.LastCell | js/canvas.ts:241-252 | Offset 0x3F7 is the visible bottom-right cell (row 23, column 39) |
| Screen.TailInvisible | js/canvas.ts:241-252 | The 8-byte tail of every 128-byte group lies on no visible row, so `_write` draws nothing for it |
| Screen.LoresCellOwner | js/canvas.ts:251-269 | A pixel lies in a visible offset's 14 x 8 cell exactly when that offset owns the pixel |
| Screen.HiresOwnerRange | js/canvas.ts:652-667 | Every pixel has a hi-res owner whose line and column are the pixel's, and whose low 10 bits are the text/lo-res owner |
| Screen.HiresNeighbourOwner | js/canvas.ts:817-836 | A pixel on a byte's line, in the column d places over, is owned by the byte at offset + d |
| Screen.SameRowNeighbour | js/canvas.ts:808-815 | The bytes one or two columns over on the same row are the window offsets on either side, on the same line |
| ColorTables.SetColors | js/canvas.ts:58-68 | White and black are fixed in every palette; palettes 2 and 3 give grey artifact colours |
| ColorTables.Get16Colors | js/canvas.ts:70-90 | Sixteen colours, from black (0) to white (15); all grey in palettes 2 and 3 |
| ColorTables.R4Permutation | js/canvas.ts:101-121 | `r4` is a permutation of 0..15 that keeps black and white |
| ColorTables.Dim | js/canvas.ts:13-17 | `dim` at 0.75 gives each channel the floor of three quarters of the original |
| ColorTables.DimDarkens | js/canvas.ts:13-17 | Dimming never brightens a channel and keeps black black |
| Glyphs.CheckInverseClasses | js/canvas.ts:186-196 | On a II/II+, codes below 0x40 are inverse, and 0x40-0x7F are inverse only while the blink phase is off. On a IIe only codes 0x40-0x7F are inverse, and only in 40 columns without the alternate set while the blink phase is on |
| Glyphs.Unflash | js/canvas.ts:306-308 | Without the alternate set, codes 0x40-0x7F fall to 0x00-0x3F and keep their low six bits; other codes are unchanged |
| Glyphs.MapCharCode | js/canvas.ts:494-503 | Every screen code prints as printable ASCII with the same low five bits; a II/II+ shows no lower case; printable codes show as themselves |
| Glyphs.Nibble | js/canvas.ts:376-377 | A lo-res block row's colour is a nibble: the low nibble for the upper four lines |
| Glyphs.RepeatedNibbleBit | js/canvas.ts:377-379 | `b \|= b << 4; b \|= b << 8` repeats the nibble, so bit k is nibble bit k mod 4 |
| Glyphs.ReplicatedBit | js/canvas.ts:376-389 | The mono lo-res pattern shows nibble bit (k + 2 * (col odd)) mod 4 at half-pixel k |
| Glyphs.SwizzleBit | js/canvas.ts:392-394 | `((val & 0x77) << 1) \| ((val & 0x88) >> 3)` rotates each nibble left by one bit: bit k of the result is bit k - 1 of the same nibble, and bits 0 and 4 take bits 3 and 7 |
| Glyphs.Swizzle | js/canvas.ts:392-394 | The auxiliary-bank lo-res byte stays a byte; its per-bit rotation is `Glyphs.SwizzleBit` |
| Glyphs.RotateNibbleBit | js/canvas.ts:392-394 | Within one nibble, bit k of the rotated nibble is bit (k + 3) mod 4 of the nibble |
| Glyphs.TextLine | js/canvas.ts:505-526 | A line has 80 characters in 80 columns on a IIe and 40 otherwise, all printable ASCII |
| Glyphs.TrimEnd | js/canvas.ts:527 | `trimEnd` keeps a prefix that ends in a non-space and drops only spaces |
| Glyphs.DumpRowsShape | js/canvas.ts:505-530 | The text dump holds one newline per screen line and only printable characters otherwise |
| Glyphs.ScreenText | js/canvas.ts:505-530 | `getText`'s loops build the 24 trimmed, newline-ended lines of the screen |
| Glyphs.ScreenLine | js/canvas.ts:511-526 | The column loop builds one untrimmed line, interleaving auxiliary and main bytes in 80 columns |
| LoresDecode.LoresDirty | js/canvas.ts:251-269 | A visible byte widens the dirty rectangle by exactly its 14 x 8 cell; an invisible one leaves it alone |
| LoresDecode.LoresDirtyTwice | js/canvas.ts:251-269 | Marking the same cell twice widens the rectangle once |
| LoresDecode.BlinkDirty | js/canvas.ts:459-463 | The rectangle after a blink's first n bytes contains the old one |
| LoresDecode.BlinkDirtyCovers | js/canvas.ts:459-463 | It covers the 14 x 8 box of every visible byte with a flashing code |
| LoresDecode.BlinkDirtyLeast | js/canvas.ts:459-463 | Every rectangle that contains the old one and covers those boxes contains it, so it grows by the flashing cells and nothing else |
| LoresDecode.FirstCellDirty | js/canvas.ts:251-269 | The first cell reaches the top-left corner of the screen |
| LoresDecode.LastCellDirty | js/canvas.ts:251-269 | The last cell reaches the bottom-right corner of the screen |
| LoresDecode.CellWithinScreen | js/canvas.ts:251-269 | A cell's box never widens the rectangle beyond the screen |
| LoresDecode.SweepDirtyStep | js/canvas.ts:440-453 | Each cell a refresh draws keeps its dirty rectangle between the starting one and the screen's box; the first and last cells take it to the top-left and bottom-right corners |
| LoresDecode.CellBox | js/canvas.ts:241-252 | A visible offset lies on the 24 x 40 grid and its cell on the screen |
| LoresDecode.Text80Plan | js/canvas.ts:275-297 | 80-column text paints a 7 x 8 half-cell: the auxiliary character on the left, the main one on the right |
| LoresDecode.Text40Plan | js/canvas.ts:317-327 | IIe 40-column text paints the whole 14 x 8 cell |
| LoresDecode.Text40PlusPlan | js/canvas.ts:328-368 | II/II+ 40-column text paints the whole 14 x 8 cell |
| LoresDecode.MonoLoresPlan | js/canvas.ts:375-390 | Mono lo-res paints inside its cell |
| LoresDecode.MonoLoresPixel | js/canvas.ts:405-423 | Mono lo-res half-pixel k of block row j is white exactly when the replicated nibble has bit k set |
| LoresDecode.ColorLoresPlan | js/canvas.ts:391-404 | Colour lo-res paints inside its cell |
| Lores2D.FringePlan | js/canvas.ts:329-368 | The II/II+ colour-fringe text paints the whole 14 x 8 cell |
| Lores2D.FringeColor | js/canvas.ts:347-358 | An unlit bit is black; a lit bit with a lit neighbour on either side is white; a lone lit bit takes violet on even and green on odd screen columns |
| Lores2D.CellPlan | js/canvas.ts:270-437 | Each mode's block stays in the byte's cell. A main byte paints its whole cell, or the right half in 80-column and double lo-res modes. An auxiliary byte paints the left half there (corrected form, see Findings) |
| Lores2D.BytePlan | js/canvas.ts:251-437 | An invisible offset paints nothing; a visible one paints only inside its cell |
| Lores2D.PlanOf | js/canvas.ts:232-437 | The plan of a stored byte, read from the page's memory |
| Lores2D.RedrawForgetsOldImage | js/canvas.ts:440-453 | After a refresh, no pixel depends on what the image held before |
| Lores2D.LoresPage2D.constructor | js/canvas.ts:151-166 | A new page has no dirty region, is not refreshing, is not in the blink phase, and has a white image |
| Lores2D.LoresPage2D.Start | js/canvas.ts:218-220 | The first bus page of the page's window is 4 * pageNo |
| Lores2D.LoresPage2D.End | js/canvas.ts:222-224 | The last bus page is the first plus 3 |
| Lores2D.LoresPage2D.Read | js/canvas.ts:226-230 | `_read` returns the byte at the address's offset in the 1 KiB window |
| Lores2D.LoresPage2D.Write | js/canvas.ts:232-269 | The byte is stored. An unchanged byte outside a refresh changes nothing more. Otherwise the cell is repainted by its plan and the dirty rectangle widened by its box (corrected form, see Findings) |
| Lores2D.LoresPage2D.Draw | js/canvas.ts:251-437 | The drawing half of `_write` paints the plan and widens the dirty rectangle |
| Lores2D.LoresPage2D.RedrawByte | js/canvas.ts:446-451 | One step of `refresh` repaints the cell of that offset from both banks and leaves memory alone |
| Lores2D.LoresPage2D.BlinkByte | js/canvas.ts:460-463 | One step of `blink`: a flashing main-bank byte is rewritten in place, its cell repainted and its box added to the dirty rectangle; any other byte changes nothing |
| Lores2D.LoresPage2D.Refresh | js/canvas.ts:440-453 | Every pixel takes the colour its owning byte decodes to, and memory is unchanged. The dirty rectangle grows to cover the screen, and the high-colour text flag is re-derived (corrected form, see Findings) |
| Lores2D.LoresPage2D.Blink | js/canvas.ts:455-466 | The blink phase flips. Exactly the cells holding flashing codes are repainted, and memory is unchanged. The dirty rectangle becomes `BlinkDirty`: the old one widened by exactly the repainted flashing cells |
| Lores2D.LoresPage2D.GetText | js/canvas.ts:505-530 | `getText` is the text dump of the page's banks, 80 columns wide only on a IIe in 80-column mode |
| Lores2D.DrawTarget | js/canvas.ts:232-269 | The cell `_write` paints for a bus page and offset is the cell of the window offset they name |
| Lores2D.RedrawStep | js/canvas.ts:446-451 | After each refresh step, the pixels of the cells done so far are final and the rest untouched (the loop invariant) |
| Lores2D.BlinkStep | js/canvas.ts:458-464 | The same, step by step, for the blink loop |
| LoresGL.GlCellPlan | js/gl.ts:148-271 | The GL page draws inside the cell. A main byte paints the whole cell or its right half. An auxiliary byte paints the left half in 80 columns and nothing in 40 |
| LoresGL.PlanOf | js/gl.ts:128-271 | An invisible offset paints nothing |
| LoresGL.RedrawForgetsOldImage | js/gl.ts:274-284 | After a refresh, no pixel depends on what the image held before |
| LoresGL.AuxSilentIn40 | js/gl.ts:194-232 | In 40 columns an auxiliary write paints no pixel |
| LoresGL.LoresPageGL.constructor | js/gl.ts:46-62 | A new page has no dirty region, is not refreshing, is not in the blink phase, and has a white image |
| LoresGL.LoresPageGL.Start | js/gl.ts:114-116 | The first bus page is 4 * pageNo |
| LoresGL.LoresPageGL.End | js/gl.ts:118-120 | The last bus page is the first plus 3 |
| LoresGL.LoresPageGL.Read | js/gl.ts:122-126 | `_read` returns the byte at the address's offset in the 1 KiB window |
| LoresGL.LoresPageGL.Write | js/gl.ts:128-165 | The byte is stored. An unchanged byte outside a refresh changes nothing more. Otherwise the cell is repainted and the dirty rectangle widened |
| LoresGL.LoresPageGL.Draw | js/gl.ts:148-271 | The drawing half of `_write` paints the plan and widens the dirty rectangle |
| LoresGL.LoresPageGL.RedrawByte | js/gl.ts:277-282 | One step of `refresh` repaints one cell from both banks |
| LoresGL.LoresPageGL.BlinkByte | js/gl.ts:291-294 | One step of `blink`: a flashing main-bank byte is rewritten in place, its cell repainted and its box added to the dirty rectangle; any other byte changes nothing |
| LoresGL.LoresPageGL.Refresh | js/gl.ts:274-284 | Every pixel takes the colour its owning byte decodes to; memory is unchanged; the dirty rectangle covers the screen |
| LoresGL.LoresPageGL.Blink | js/gl.ts:286-297 | The blink phase flips and exactly the flashing cells are repainted. The dirty rectangle becomes `BlinkDirty`: the old one widened by exactly the repainted flashing cells |
| LoresGL.LoresPageGL.GetText | js/gl.ts:336-361 | `getText` is the text dump of the page's banks |
| LoresGL.GlDrawTarget | js/gl.ts:128-165 | The cell `_write` paints is the cell of the window offset of its address |
| LoresGL.GlRedrawStep | js/gl.ts:277-282 | The refresh loop invariant, one step at a time |
| LoresGL.GlBlinkStep | js/gl.ts:290-295 | The blink loop invariant, one step at a time |
| HiresDecode.HiresCell | js/canvas.ts:652-666 | A hi-res byte's line and column lie on the screen, and its column is that of its 1 KiB slice |
| HiresDecode.DhrCodes | js/canvas.ts:707-748 | Nine 4-bit codes. The code before the quad is 0 at the left edge and the code after it is 0 at the right edge |
| HiresDecode.DhrCodesFollowStream | js/canvas.ts:712-726 | Codes 1-7 are consecutive 4-bit pieces of the quad's 28 data bits, bank by bank: the reference reading of double hi-res |
| HiresDecode.CodeFollowsStream | js/canvas.ts:717-725 | Each bit j of code i is stream bit 4(i - 1) + j |
| HiresDecode.WholeCodeFollowsStream | js/canvas.ts:718-724 | Codes 1, 3, 5 and 7 follow the stream within one byte |
| HiresDecode.SplitCodeFollowsStream | js/canvas.ts:719-723 | Codes 2, 4 and 6 join the top of one byte to the bottom of the next, in stream order |
| HiresDecode.DhrHigh | js/canvas.ts:728-737 | Nine high bits, one for each code |
| HiresDecode.Field | js/canvas.ts:718-724 | `(x >> s) & mask` is below 2^w |
| HiresDecode.Halve | js/canvas.ts:776-781 | `dim(c, 0.5)` gives each channel half the original, rounded down |
| HiresDecode.CompositeColor | js/canvas.ts:776-782 | The composite share of a quarter: black stays black in every quarter, white keeps its colour in every quarter, and a half share halves the colour |
| HiresDecode.DhrColor | js/canvas.ts:750-784 | In the mono modes a quarter is white exactly when its bit of the code is set, else black; the mixed mode does the same for a code without its high bit. Otherwise, without composite shading, all four quarters take the code's colour through `r4`, and code 0 is black in both colour modes |
| HiresDecode.DhrPlan | js/canvas.ts:750-806 | A quad paints 28 half-pixels on its line, from the even column of the pair |
| HiresDecode.DhrMonoPixel | js/canvas.ts:754-764 | In the mono modes, half-pixel k of a quad is white exactly when stream bit k is set |
| HiresDecode.DhrWhiteCode | js/canvas.ts:712-764 | Example: auxiliary byte 0x0F gives code 1 = 0xF, whose four half-pixels are white in mono |
| HiresDecode.OneSixtyPlan | js/canvas.ts:686-695 | The 160-wide mode paints 7 half-pixels, the main byte on the right half of the cell |
| HiresDecode.HiresWindow | js/canvas.ts:818-826 | The bits the decoder walks: two from the left byte, seven of its own, two from the right |
| HiresDecode.HiresWindowBit | js/canvas.ts:818-826 | Window bit t is the named bit of the left, own or right byte |
| HiresDecode.HiresColor | js/canvas.ts:837-873 | In mono a pixel is white exactly when its bit is set. In high-colour mode it takes the auxiliary byte's upper nibble colour when lit and its lower nibble colour when not. A lit bit next to a lit bit is white. With both neighbours unlit, an unlit bit is black and a lit one takes orange or green when col + idx is even and blue or violet when it is odd, the byte's high bit choosing the first of each pair |
| HiresDecode.HiresPlan | js/canvas.ts:817-873 | Nine double-width pixels from col * 14 - 2, clipped to the screen |
| HiresDecode.HiresMonoPixel | js/canvas.ts:837-872 | In mono, the canvas shows the byte's seven data bits as double-width white pixels |
| HiresDecode.GlDhrPlan | js/gl.ts:485-497 | GL double hi-res paints 7 half-pixels, white exactly at the byte's set bits, the main byte on the right |
| HiresDecode.GlHiresPlan | js/gl.ts:498-525 | GL single hi-res paints 14 half-pixels, or 15 when the high bit shifts them right |
| HiresDecode.GlHiresPixel | js/gl.ts:498-525 | Half-pixel k shows data bit (k - shift) / 2, and the leading half-pixel of a shifted byte shows bit 6 of the byte before |
| HiresDecode.HiresAddress | js/canvas.ts:645-646 | Every 8 KiB window offset is reached from the bus page and offset of its address |
| HiresDecode.WriteBox | js/canvas.ts:652-684 | `_write`'s visibility test and dirty box, from the bus address, are those of the window offset |
| HiresDecode.FirstLine | js/canvas.ts:652-666 | Offset 0 is visible at line 0, column 0 |
| HiresDecode.LastLine | js/canvas.ts:652-666 | Offset 0x1FF7 is visible at line 191, column 39 |
| HiresDecode.BoxWithin | js/canvas.ts:666-684 | A box inside the screen keeps the dirty rectangle between its old value and the screen's box |
| Hires2D.PlanOf | js/canvas.ts:666-873 | A byte paints something exactly when it is visible and hi-res is on, or a refresh is running |
| Hires2D.Neighbour | js/canvas.ts:811 | `rr = addr - 1 + k` names an offset in the window |
| Hires2D.BusNeighbour | js/canvas.ts:811-813 | `rr >> 8` and `rr & 0xff` name the neighbouring window offset |
| Hires2D.DrawnDirty | js/canvas.ts:666-816 | A drawn byte's dirty box is its own, then the cascade's |
| Hires2D.DrawnImage | js/canvas.ts:666-816 | A drawn byte's image is its own plan, then the cascade's repaints |
| Hires2D.TouchTwice | js/canvas.ts:666-684 | Marking the same line twice widens the rectangle once |
| Hires2D.StepBounds | js/canvas.ts:887-894 | Each refresh step keeps the rectangle between its old value and the screen's box; the first and last steps reach the corners |
| Hires2D.SweptBounds | js/canvas.ts:887-894 | Every prefix of the refresh sweep keeps those bounds |
| Hires2D.SweptAll | js/canvas.ts:878-896 | A whole sweep widens the rectangle by exactly the screen's box (384 lines, -2..562) |
| Hires2D.FirstTouch | js/canvas.ts:666-684 | The first offset's box is the top-left one |
| Hires2D.LastTouch | js/canvas.ts:666-684 | The last visible offset's box is the bottom-right one |
| Hires2D.TouchVisible | js/canvas.ts:666-684 | A visible byte's box covers lines 2L..2L+1 and x from col * 14 - 2 to col * 14 + 16 |
| Hires2D.LineInside | js/canvas.ts:666-684 | A line's box lies in the screen's |
| Hires2D.HiresPage2D.constructor | js/canvas.ts:552-566 | A new page has no dirty region, no refresh and no sub-modes, and a white image |
| Hires2D.HiresPage2D.Start | js/canvas.ts:630-632 | The first bus page is 32 * pageNo |
| Hires2D.HiresPage2D.End | js/canvas.ts:634-636 | The last bus page is the first plus 0x1f |
| Hires2D.HiresPage2D.Read | js/canvas.ts:638-642 | `_read` returns the byte at `addr & 0x1fff` |
| Hires2D.HiresPage2D.Write | js/canvas.ts:644-651 | The byte is stored. An unchanged byte outside a refresh changes nothing more. Otherwise the image and dirty rectangle are as `WriteImage` and `WriteDirty` give |
| Hires2D.HiresPage2D.Draw | js/canvas.ts:652-875 | The drawing half of `_write`: a visible byte's plan, then the cascade |
| Hires2D.HiresPage2D.DrawCell | js/canvas.ts:666-816 | A visible byte's cell painted, then in double hi-res the three neighbours rewritten from the other bank |
| Hires2D.HiresPage2D.PaintCell | js/canvas.ts:667-684 | The cell painted by its plan and the dirty rectangle widened by its box |
| Hires2D.HiresPage2D.Redraw3 | js/canvas.ts:808-815 | The cascade rewrites the other bank at addr - 1, addr and addr + 1, then clears `_refreshing` |
| Hires2D.HiresPage2D.WriteBack | js/canvas.ts:812-813 | One cascade step reads a byte and writes it back in place: memory is unchanged and its cell is repainted |
| Hires2D.HiresPage2D.RedrawByte | js/canvas.ts:888-894 | One refresh step writes both banks' bytes back in place |
| Hires2D.HiresPage2D.Refresh | js/canvas.ts:878-896 | The four sub-mode flags are re-derived from the switches. The image becomes the in-order replay of the whole window and memory is unchanged. The dirty rectangle covers the screen |
| Hires2D.HiresPage2D.RedrawWindow | js/canvas.ts:885-895 | The refresh loop replays every offset in order |
| HiresGL.PlanOf | js/gl.ts:466-525 | A byte paints something exactly when it is visible in hi-res mode and is either main-bank or in double hi-res |
| HiresGL.Next | js/gl.ts:527-533 | `(addr + 1) & 0x1fff` is an offset in the window |
| HiresGL.NextAddress | js/gl.ts:527-533 | `after >> 8` and `after & 0xff` name the next offset |
| HiresGL.LeadingHalfPixel | js/gl.ts:502-512 | Why the write cascades: the next byte's leading half-pixel shows bit 6 of this byte when its own high bit is set |
| HiresGL.AuxSilent | js/gl.ts:485-498 | Outside double hi-res an auxiliary write paints nothing |
| HiresGL.HiresPageGL.Bank | js/gl.ts:439-443 | A bank is one of the page's two buffers |
| HiresGL.HiresPageGL.constructor | js/gl.ts:397-411 | A new page has no dirty region, no refresh, and a white image |
| HiresGL.HiresPageGL.Start | js/gl.ts:431-433 | The first bus page is 32 * pageNo |
| HiresGL.HiresPageGL.End | js/gl.ts:435-437 | The last bus page is the first plus 0x1f |
| HiresGL.HiresPageGL.Read | js/gl.ts:439-443 | `_read` returns the byte at `addr & 0x1fff` |
| HiresGL.HiresPageGL.Write | js/gl.ts:445-452 | The byte is stored. An unchanged byte outside a refresh changes nothing more. Otherwise the image and dirty rectangle are as `WriteImage` and `WriteDirty` give |
| HiresGL.HiresPageGL.Draw | js/gl.ts:453-538 | The drawing half of `_write` |
| HiresGL.HiresPageGL.DrawCell | js/gl.ts:466-538 | A visible line painted, then for a main-bank single hi-res byte the next byte rewritten |
| HiresGL.HiresPageGL.PaintCell | js/gl.ts:467-525 | The line painted by its plan and the dirty rectangle widened only in hi-res mode |
| HiresGL.HiresPageGL.RedrawByte | js/gl.ts:544-551 | One refresh step writes both banks' bytes back in place |
| HiresGL.HiresPageGL.Refresh | js/gl.ts:541-553 | The image becomes the in-order replay of the window; memory is unchanged; in hi-res mode the dirty rectangle covers the screen |
| HiresGL.TouchVisible | js/gl.ts:466-483 | A visible byte's box is line L and x from col * 14 - 2 to col * 14 + 12 |
| HiresGL.LineInside | js/gl.ts:466-483 | A line's box lies in the screen's |
| HiresGL.FirstTouch | js/gl.ts:466-483 | The first offset's box is the top-left one |
| HiresGL.LastTouch | js/gl.ts:466-483 | The last visible offset's box is the bottom-right one |
| HiresGL.StepBounds | js/gl.ts:544-551 | Each refresh step keeps the rectangle between its old value and the screen's box |
| HiresGL.SweptBounds | js/gl.ts:544-551 | Every prefix of the sweep keeps those bounds |
| HiresGL.SweptAll | js/gl.ts:541-553 | A whole sweep in hi-res mode widens the rectangle by exactly the screen's box |
| ModeState.AnFlag | js/canvas.ts:1056-1072 | The sub-mode register keeps its previous low bit in bit 1 and records in bit 0 whether 80 columns is off |
| ModeState.FlagAfterTwoPulses | js/canvas.ts:1056-1072 | Two AN3 pulses set the sub-mode whatever the register held before |
| ModeState.BlitAfterRefresh | js/canvas.ts:1135-1193 | After a refresh `blit` always reports a change |
| ModeState.NotDirtyIsClean | js/canvas.ts:1135-1193 | With both rectangles clean, `blit` reports a change exactly when it is given an override image |
| Modes2D.RefreshPages | js/canvas.ts:1166-1170 | Both selected pages are redrawn from unchanged memory, and their rectangles cover the screen |
| Modes2D.BlitPages | js/canvas.ts:1161-1193 | The selected pages are refreshed when flagged. The result is `updateImage`'s test on the mode's rectangles, true after a refresh. Both rectangles end clean |
| Modes2D.VideoModes2D.constructor | js/canvas.ts:944-964 | The four pages are registered, the switches start at the reset state, and a refresh is pending |
| Modes2D.VideoModes2D.RefreshModes | js/canvas.ts:966-971 | Double hi-res is re-derived as AN3 off, hi-res on and 80 columns on; a refresh is marked |
| Modes2D.VideoModes2D.Reset | js/canvas.ts:977-990 | The state becomes text, hi-res, page 1, 40 columns, AN3 on, flag 0; double hi-res is off |
| Modes2D.VideoModes2D.Text | js/canvas.ts:1008-1017 | Text mode is set; turning it on clears the sub-mode flag; a refresh is marked exactly when the switch changed |
| Modes2D.VideoModes2D.Col80 | js/canvas.ts:1019-1030 | On a IIe 80 columns is set; on a II/II+ nothing changes |
| Modes2D.VideoModes2D.AltChar | js/canvas.ts:1032-1042 | On a IIe the alternate set is switched; on a II/II+ nothing changes |
| Modes2D.VideoModes2D.Hires | js/canvas.ts:1044-1054 | Hi-res is set; turning it off clears the sub-mode flag |
| Modes2D.VideoModes2D.An3 | js/canvas.ts:1056-1072 | On a IIe AN3 is set, and turning it on shifts the sub-mode register |
| Modes2D.VideoModes2D.DoubleHiresSwitch | js/canvas.ts:1074-1076 | `doubleHires(on)` is `an3(!on)` |
| Modes2D.VideoModes2D.Mixed | js/canvas.ts:1078-1084 | Mixed mode is set; a refresh is marked exactly when it changed |
| Modes2D.VideoModes2D.Page | js/canvas.ts:1086-1092 | The page is set; a refresh is marked exactly when it changed |
| Modes2D.VideoModes2D.Mono | js/canvas.ts:1221-1229 | Mono is stored and a refresh marked |
| Modes2D.VideoModes2D.Composite | js/canvas.ts:1250-1254 | Composite shading is stored and a refresh marked |
| Modes2D.VideoModes2D.Smoothing | js/canvas.ts:1256-1265 | Smoothing is stored; the modes the pages read do not change |
| Modes2D.VideoModes2D.Palette | js/canvas.ts:1267-1274 | The palette changes, with a refresh, only when the screen has a parent element |
| Modes2D.VideoModes2D.GetState | js/canvas.ts:1195-1206 | The eight switches, the sub-mode register included |
| Modes2D.VideoModes2D.SetState | js/canvas.ts:1208-1219 | `getState` after `setState(s)` gives back s; a refresh is marked |
| Modes2D.VideoModes2D.Blit | js/canvas.ts:1161-1193 | The pending refresh is done and cleared. The result is true after a refresh and otherwise tells whether the shown page changed. Both rectangles end clean and the modes are unchanged |
| Modes2D.VideoModes2D.GetText | js/canvas.ts:1276-1278 | The selected text page's dump |
| ModesGL.Fresh | js/gl.ts:630-660 | A freshly built set-up allows colour and has scan lines at half strength |
| ModesGL.PaletteMonitor | js/gl.ts:1045-1049 | Palette 0 is the only one that picks the composite monitor; no palette picks the monochrome one |
| ModesGL.RefreshPages | js/gl.ts:957-963 | Both selected pages are redrawn from unchanged memory; the hi-res rectangle grows only in hi-res mode |
| ModesGL.BlitPages | js/gl.ts:952-986 | The same as the canvas `blit` body, for the GL pages |
| ModesGL.VideoModesGL.Tuned | js/gl.ts:766-779 | `_refresh`'s configuration keeps the monitor, shows white only in text or mono, and uses the opacity as the scan-line level only with scan lines on |
| ModesGL.VideoModesGL.constructor | js/gl.ts:602-628 | The four pages are registered and the switches start at the reset state. No configuration exists until `init` |
| ModesGL.VideoModesGL.Init | js/gl.ts:622-628 | `init` builds the composite set-up and hands it to the emulator |
| ModesGL.VideoModesGL.RefreshModes | js/gl.ts:766-779 | Double hi-res is re-derived; an existing configuration is retuned and shown |
| ModesGL.VideoModesGL.Reset | js/gl.ts:785-797 | The state becomes text, hi-res, page 1, 40 columns, AN3 on; the emulator is in step |
| ModesGL.VideoModesGL.Text | js/gl.ts:815-822 | Text mode is set; unlike the canvas, no sub-mode is cleared |
| ModesGL.VideoModesGL.Col80 | js/gl.ts:824-835 | On a IIe 80 columns is set; on a II/II+ nothing changes |
| ModesGL.VideoModesGL.AltChar | js/gl.ts:837-847 | On a IIe the alternate set is switched; on a II/II+ nothing changes |
| ModesGL.VideoModesGL.Hires | js/gl.ts:849-856 | Hi-res is set; a refresh is marked exactly when it changed |
| ModesGL.VideoModesGL.An3 | js/gl.ts:858-869 | On a IIe AN3 is set; no sub-mode register is kept |
| ModesGL.VideoModesGL.DoubleHiresSwitch | js/gl.ts:871-873 | `doubleHires(on)` is `an3(!on)`; with hi-res and 80 columns on a IIe, double hi-res follows `on` |
| ModesGL.VideoModesGL.Mixed | js/gl.ts:875-881 | Mixed mode is set; a refresh is marked exactly when it changed |
| ModesGL.VideoModesGL.Page | js/gl.ts:883-889 | The page is set; a refresh is marked exactly when it changed |
| ModesGL.VideoModesGL.Mono | js/gl.ts:1013-1017 | Mono picks the monochrome monitor and leaving it the composite one, whatever the palette |
| ModesGL.VideoModesGL.Scanlines | js/gl.ts:1019-1022 | The scan-line level becomes the opacity when on and 0 when off |
| ModesGL.VideoModesGL.Opacity | js/gl.ts:1024-1027 | The scan-line level follows a new opacity when scan lines are on |
| ModesGL.VideoModesGL.Composite | js/gl.ts:1029-1032 | The setting is only recorded |
| ModesGL.VideoModesGL.Smoothing | js/gl.ts:1034-1043 | The setting is stored and a refresh marked |
| ModesGL.VideoModesGL.Palette | js/gl.ts:1045-1049 | The monitor the palette calls for is set up and shown |
| ModesGL.VideoModesGL.GetState | js/gl.ts:988-999 | The switches, with the sub-mode reported as 0 |
| ModesGL.VideoModesGL.SetState | js/gl.ts:1001-1011 | `getState` after `setState(s)` gives back s with the sub-mode dropped |
| ModesGL.VideoModesGL.Blit | js/gl.ts:952-986 | The pending refresh is done and cleared; the result is true after a refresh; both rectangles end clean |
| ModesGL.VideoModesGL.GetText | js/gl.ts:1051-1053 | The selected text page's dump |
| Keyboard.UpperChar | js/components/util/keyboard.ts:157 | `toUpperCase` on ASCII moves only a-z, by 0x20 |
| Keyboard.KeyName | js/components/util/keyboard.ts:143-150 | Special keys are renamed and other keys kept; a one-character name is always the event's own key |
| Keyboard.MapKeyboardEvent | js/components/util/keyboard.ts:138-175 | The key is the renamed event key. A named key keeps its `SPECIAL_KEY_CODE` under every modifier, and a longer name without a code gives 0xff. A one-character key gives its own code ('1' gives 0x31, ',' gives 0x2c), except that a lower-case letter is upper-cased under caps lock or control. Control then folds a key from '@' to '_' (after upper-casing) down by 0x40 and leaves every other key's code as it is |
| Keyboard.KeyCodeRange | js/components/util/keyboard.ts:138-175 | An ASCII key gives a 7-bit code. The code is 0xff exactly when the key has no code of its own and a name longer than one character |
| Keyboard.LetterCodes | js/components/util/keyboard.ts:161-172 | With control a letter gives its control code 1..26. With caps lock only it gives upper case. Otherwise it gives itself |
| Keyboard.LabelOfSymbol | js/components/util/keyboard.ts:152-159 | A one-character key is labelled with the unshifted symbol on its keycap, or its upper case |
| Keyboard.SpecialKeys | js/components/util/keyboard.ts:4-41 | Enter is Return (13) and Backspace is Delete (127) |
| Keyboard.AltKeys | js/components/util/keyboard.ts:146-147 | Left Alt is the open Apple key and right Alt the closed one, code 0xff |
| Keyboard.MouseKey | js/components/util/keyboard.ts:199-233 | Keycap names are replaced by their control characters; one- and two-letter names are kept |
| Keyboard.MapMouseEvent | js/components/util/keyboard.ts:188-244 | The key is the clicked keycap's `data-key1`, or `data-key2` under shift, after control characters replace the named keys. The label is `data-key2`. A keycap of more than one character gives 0xff. With control, '@' to '_' give their code less 0x40. Otherwise a one-character keycap gives its own code, except that on a IIe a letter without shift or caps lock gives the lower-case code |
| Keyboard.NamedKeysAgree | js/components/util/keyboard.ts:31-41 | Clicking a named keycap gives the same code as pressing the key of that name (Backspace for Delete), and both are its `SPECIAL_KEY_CODE` |
| Keyboard.NamedKeyClicked | js/components/util/keyboard.ts:199-243 | A clicked named keycap reports its `SPECIAL_KEY_CODE` |
| Keyboard.NamedKeyPressed | js/components/util/keyboard.ts:143-166 | The key carrying a keycap's name reports its `SPECIAL_KEY_CODE` |
| Keyboard.UnmappedNames | js/components/util/keyboard.ts:4-24 | Keycap names other than Tab and Delete are not renamed DOM keys |
| Keyboard.LetterKeysAgree | js/components/util/keyboard.ts:235-242 | Clicking a IIe letter keycap without shift types what pressing the letter key types |
| Keyboard.ControlFold | js/components/util/keyboard.ts:170-172 | Control folds every key from '@' to '_' down by 0x40, pressed or clicked: '@' gives 0, '[' gives 0x1b (Esc), and the letters give 1 to 26 |
| Keyboard.MouseUnknownKey | js/components/util/keyboard.ts:195-244 | A multi-character keycap with no control character reports 0xff |
| Keyboard.TablesAreLayouts | js/components/util/keyboard.ts:52-92 | In both layout tables the two layers have the same rows of the same lengths |
| Keyboard.KeysAsTuples | js/components/util/keyboard.ts:253-267 | Row i, key j of the result is the pair (unshifted, shifted) |
| Keyboard.Layer | js/components/util/keyboard.ts:253-267 | A layer of a tupled layout keeps its shape |
| Keyboard.TuplesRoundTrip | js/components/util/keyboard.ts:253-267 | Splitting the pairs gives back both layers exactly |
| Options.Stringify | js/options.ts:70 | `String` of a string is itself; of a boolean, "true" exactly for true |
| Options.Truthy | js/options.ts:90 | `Boolean` of a boolean is itself |
| Options.Numeric | js/options.ts:76 | `Number` gives a number and keeps a number |
| Options.ReadPref | js/options.ts:71 | A missing preference reads as the default |
| Options.ReadOption | js/options.ts:66-81 | A boolean option reads as a boolean, a slider as a number, anything else as a string. An unset boolean option reads as its default |
| Options.Coerce | js/options.ts:88-97 | `setOption` hands the handler the value coerced to the option's type |
| Options.SetThenRead | js/options.ts:83-98 | A value of the option's type is stored, then read back as the value the handler was told |
| Options.StringToBooleanOption | js/options.ts:83-98 | The exception: "false" given to a boolean option tells the handler true but is read back as false |
| Options.Flatten | js/options.ts:51-53 | No sections give no options |
| Options.FlattenHas | js/options.ts:51-53 | Every option of every section is in the flattened list |
| Options.RegisterKeys | js/options.ts:53-56 | Registration files every option's name and no other new name |
| Options.RegisterLastWins | js/options.ts:53-56 | Under a repeated name the last option wins |
| Options.RegisterKeeps | js/options.ts:53-56 | A name no new option has keeps its earlier entry |
| Options.RegisterOwnNames | js/options.ts:53-56 | Every option is filed under its own name |
| Options.ClaimOwners | js/options.ts:55 | Every new option's name belongs to the registering handler; other names keep their owner |
| Options.PushedLength | js/options.ts:57-60 | `addOptions` makes exactly one call per option |
| Options.PushedAt | js/options.ts:57-60 | The earlier calls are kept, and the k-th new call tells the handler option k's current value |
| Options.RegisterAppend | js/options.ts:51-63 | Registering two lists in turn is registering their concatenation |
| Options.ClaimAppend | js/options.ts:51-63 | The same for handler ownership |
| Options.PushedAppend | js/options.ts:51-63 | The same for the call log |
| Options.Options.constructor | js/options.ts:43-47 | A new registry is empty over the given preference store |
| Options.Options.GetOption | js/options.ts:66-81 | Undefined exactly for an unregistered name; otherwise the preference read as the option's type |
| Options.Options.AddOptions | js/options.ts:49-64 | Every option is filed under its name with the handler as owner and the sections appended. The handler is told each option's value, in order |
| Options.Options.AddSection | js/options.ts:52-62 | One section's options filed, owned and pushed |
| Options.Options.AddOption | js/options.ts:54-60 | One option filed, owned, and its value pushed |
| Options.Options.SetOption | js/options.ts:83-98 | An unregistered name changes nothing. A registered one stores `String(value)` and calls its owner with the value coerced to its type |
| ProdosDirectory.GetUint8 | js/formats/prodos/directory.ts:78 | A byte is below 256 |
| ProdosDirectory.GetUint16LE | js/formats/prodos/directory.ts:64 | A little-endian word: low byte first |
| ProdosDirectory.GetUint32LE | js/formats/prodos/directory.ts:75-77 | A little-endian 32-bit word: low half first |
| ProdosDirectory.SetUint8 | js/formats/prodos/directory.ts:117 | Stores the value mod 256 at one offset and nowhere else |
| ProdosDirectory.SetUint16 | js/formats/prodos/directory.ts:116-124 | Stores the value mod 2^16 in the given byte order, touching two bytes only |
| ProdosDirectory.SetUint32LE | js/formats/prodos/directory.ts:111-115 | Stores the value mod 2^32 little-endian, touching four bytes only |
| ProdosDirectory.AsWrittenStorageByteIsZero | js/formats/prodos/directory.ts:101-105 | The byte at 0x04 as written is always 0 |
| ProdosDirectory.AsWrittenStorageByteLosesFields | js/formats/prodos/directory.ts:101-105 | A subdirectory named "Untitled" is written as 0 where 0xE8 is meant |
| ProdosDirectory.StorageByteRoundTrip | js/formats/prodos/directory.ts:66-67 | Splitting the intended byte gives back the storage type and the name length, each mod 16 |
| ProdosDirectory.Truncate | js/formats/prodos/directory.ts:111-132 | Each field cut to its width in the block fits |
| ProdosDirectory.TruncateFits | js/formats/prodos/directory.ts:111-132 | Cutting leaves a header unchanged exactly when it already fits |
| ProdosDirectory.Decode | js/formats/prodos/directory.ts:64-90 | `read`'s fields fit their widths, and the storage type and name length rejoin to byte 0x04 |
| ProdosDirectory.Encode | js/formats/prodos/directory.ts:101-132 | The block keeps its length (corrected form, see Findings) |
| ProdosDirectory.EncodeKeeps | js/formats/prodos/directory.ts:101-132 | `write` touches no byte outside its fields, in particular not `prev` and `next` (corrected form, see Findings) |
| ProdosDirectory.DecodeEncode | js/formats/prodos/directory.ts:56-136 | Write-then-read gives back every field, mod its width. `prev` and `next` stay as they were. The case bits read back from the high byte of the big-endian word (corrected form, see Findings) |
| ProdosDirectory.DecodeDetermines | js/formats/prodos/directory.ts:64-90 | Two blocks with the same decoded header agree on every header byte except the name and byte 0x21 |
| ProdosDirectory.RereadHeader | js/formats/prodos/directory.ts:56-136 | Writing back what was read, with the case bits in the high byte, reads back the same header (corrected form, see Findings) |
| ProdosDirectory.EncodeDecode | js/formats/prodos/directory.ts:56-136 | Read-then-write restores every byte except 0x21, which becomes 0 (corrected form, see Findings) |
| ProdosDirectory.Directory.constructor | js/formats/prodos/directory.ts:32-45 | The field defaults: "Untitled", entry length 0x27, 23 entries per block, zero counts and links |
| ProdosDirectory.Directory.Fields | js/formats/prodos/directory.ts:101-116 | The name length is the name's length and the case bits are those given |
| ProdosDirectory.Directory.Read | js/formats/prodos/directory.ts:56-93 | Every field becomes the block's decoded value, and the name is the decoder's reading of the name bytes |
| ProdosDirectory.Directory.Write | js/formats/prodos/directory.ts:95-136 | The block becomes the encoding of the fields over its old contents (corrected form, see Findings) |
| ProdosDirectory.SetByte | js/formats/prodos/directory.ts:117 | `setUint8` on the block in place |
| ProdosDirectory.SetWord16 | js/formats/prodos/directory.ts:116 | `setUint16` on the block in place |
| ProdosDirectory.SetWord32LE | js/formats/prodos/directory.ts:111-115 | `setUint32(.., true)` on the block in place |

## Left out

- Floating-point composite shading is a parameter `shade` of the hi-res canvas page. This covers `mix`, and `dim` by a share other than 0, 0.5 and 1 in `colorDHRMode`. `dim` is modelled exactly only at the ratios where it is exact: 0.75 (its default) and 0.5.
- The branches after `colorDHRMode` in the canvas double hi-res decoder (js/canvas.ts:785-806) are not modelled: `colorDHRMode` is initialised true (js/canvas.ts:550) and never changed, so they cannot run.
- An absent auxiliary bank reads as 0 (`Screen.ReadByte`). In the source a II/II+ has a single RAM bank (js/apple2.ts:132-135), so `this.ram[1]?.getBuffer(...)` leaves the page's `_buffer[1]` itself `undefined` (js/canvas.ts:163, 563; js/gl.ts:59), and indexing it would throw a `TypeError`. No II/II+ path reads it: every bank-1 read is guarded by the 80-column mode or double hi-res (js/canvas.ts:448, 512, 891), and only a IIe can turn those on. The model's empty auxiliary bank, read as 0, stands in for that unreachable case.
- The page constructors start with a white image. The controller constructors start in the reset state, with `smoothed` off, where the source leaves the switches undefined until `reset` runs.
- Modes2D.VideoModes2D.Blit and ModesGL.VideoModesGL.Blit require an auxiliary bank whenever 80 columns is on, which a IIe always has.
- `updateImage`'s copy of the image onto the screen canvas, the 2D `scanlines` and `opacity` overlays, `classList` and `image-rendering` styles, the resize event and the `setInterval` that drives `blink` are DOM effects and are not modelled.
- The GL screen emulator (`screenEmu`) is modelled only by the monitor kind, `videoWhiteOnly` and `scanlineLevel` of its configuration. The other fields of the five monitor set-ups are constants handed to code outside the model. The console message `composite` logs is left out.
- ModesGL.Fresh: the `videoWhiteOnly` of a fresh set-up is stated false; the other defaults of `monitorComposite` and its siblings are not modelled.
- Keys and keycap labels are ASCII strings; `toUpperCase` is modelled on ASCII only.
- Options.Numeric: a JavaScript number is carried as the text `String(n)` prints for it, so `Number` of a non-numeric string is not modelled as NaN.
- The preference store (`Prefs`, local storage) is a map from names to strings. Handlers are known by a number, and the calls to their `setOption` are kept in a log. `handler.getOptions()` is the `secs` parameter of `AddOptions`. `getOptions` and `getSections` are plain field reads of `options` and `sections`.
- `readFileName` and `writeFileName` live in the ProDOS utility module. That module is not part of this model. The name decoder is a parameter of `Read`, the case bits `writeFileName` returns are a parameter of `Write`, and the name bytes at 0x05-0x13 are not written by the model.
- The creation date is kept as its raw 32-bit ProDOS date word; `uint32ToDate` and `dateToUint32` are not modelled.
- `readEntries`, `writeEntries`, `init` and the volume's disk I/O are not modelled; the directory block is a parameter. The source wraps the block as `new DataView(readBlock.buffer)` (js/formats/prodos/directory.ts:62, 99), which ignores the block's `byteOffset`; the model assumes the block starts its buffer, so a block that is a view into the middle of a larger buffer is not modelled.
- ProdosDirectory.Directory.Read requires a 512-byte block, which is the only block size the disk returns.
- ProdosDirectory.Directory.constructor: in the source `storageType` defaults to `STORAGE_TYPES.DIRECTORY`, `access` to `ACCESS_TYPES.ALL` and `creation` to `new Date()` (js/formats/prodos/directory.ts:35-37). The model takes all three as constructor parameters, so it does not pin the first two defaults and reads no clock.
- ProdosDirectory.Header: the fields are natural numbers, so a negative field value is not modelled.

## Findings

| source | as written | input that shows it | evidently intended | confidence | as-written member | corrected member |
|---|---|---|---|---|---|---|
| js/canvas.ts:424-437 | The 40-column colour lo-res block draws 3 double-width pixels per line and then advances 546 * 4 bytes, so each line paints 6 of its 14 half-pixels and the next starts 8 half-pixels to the left | The byte at offset 0: its second block row is painted at pixel 552 of line 0, in column 39's cell, and pixel 6 of its own cell is never painted | 7 double-width pixels per line, covering the 14 x 8 cell as in the mono branch | not executed | Lores2D.PaintBlockAsWritten (with Lores2D.AsWrittenBlockStrays, Lores2D.AsWrittenBlockMisses) | Lores2D.ColorBlockCoversCell (on LoresDecode.ColorLoresPlan, used by Lores2D.CellPlan) |
| js/formats/prodos/directory.ts:101-105 | Byte 0x04 is written as `(storageType << 4) & nameLength`; the shifted type and the 4-bit length share no bit, so the byte is always 0 | Storage type 0xE with the default name "Untitled" (length 8) is written as 0 instead of 0xE8 | `(storageType << 4) \| nameLength`, which `read` splits back (js/formats/prodos/directory.ts:66-67) | not executed | ProdosDirectory.AsWrittenStorageByteIsZero (with ProdosDirectory.AsWrittenStorageByteLosesFields) | ProdosDirectory.StorageByteRoundTrip (on ProdosDirectory.StorageByte, used by ProdosDirectory.Encode and ProdosDirectory.Directory.Write) |

Not a finding, but modelled as written: `write` stores the case bits with `setUint16(0x20, caseBits)`, which is big-endian, while `read` takes only the byte at 0x20. ProdosDirectory.DecodeEncode and ProdosDirectory.EncodeDecode state what that round trip does.
