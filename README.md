# Mighty Mike framebuffer filter and palette manager in Dafny

This project models two parts of the Mighty Mike source port.

- `src/Heart/FramebufferFilter.c` turns the game's 8-bit indexed framebuffer into true-colour pixels:
  - the plain conversion looks each index up in the palette;
  - the dither-smoothing conversion first scans each row for alternating A-B-A-B runs (dither strides), then writes every flagged pixel as the channel-wise mean of its own palette colour and its right neighbour's;
  - the pixel doubler upscales the result 2x.
- `src/Drivers/Palette.c` keeps the 256-entry game palette and its backup, builds the palette of a shape group, and fades the screen in and out.

Files:

- `colors.dfy` (module `Colors`): bytes and words, the little-endian byte view of a 32-bit entry (red, green and blue at byte offsets 3, 2 and 1), one-byte stores, channel mixing and 5-6-5 packing.
- `dither.dfy` (module `DitherDetector`): the row scan `FilterDitheringRow` and its commit `CommitStride`. The scan is proved equal to a definition that does not mention the scan's state:
  - a centre is a pixel whose two neighbours share an index that differs from its own;
  - a link is two centres at most two pixels apart;
  - a pixel is flagged exactly when it lies within one pixel of both ends of some link (`InStride`).
- `filter.dfy` (module `FramebufferFilter`): the two conversions and the doubler.
- `palette.dfy` (module `Palette`): the class `PaletteManager` holds the palette globals and carries the fade methods. Pure functions describe each fade frame (`Faded`), the sequence of frames (`FadeFrames`) and the two erase results.

The framebuffers are modelled as two-dimensional arrays. Row `y`, column `x` stands for offset `y * VISIBLE_WIDTH + x` of the flat buffer, so the pointer offsets `firstRow * VISIBLE_WIDTH` and `firstRow * VISIBLE_WIDTH * 2 * 2` become rows `firstRow` and `2 * firstRow`. The scratch flag buffer `gRowDitherStrides` is a two-dimensional array with one row per worker. Worker `threadNum` uses row `threadNum`, which stands for offset `threadNum * VISIBLE_WIDTH`.

Behaviour of the code worth knowing:

- `InitPaletteStuff` stores `0xFF000000 | i`. Read through the filter's byte layout, that entry has red 255, green 0 and blue 0, with `i` in the fourth byte (`Palette.InitialEntryBytes`).
- At 32-bit depth, a blended pixel is written by three one-byte stores. The fourth byte of the output pixel keeps whatever the buffer held before.
- `Palette.c` indexes the palette as one array of 256 packed entries. `FramebufferFilter.c` reads `finalColors32` and `finalColorsXX`. The filter therefore takes its palette tables (`PaletteTables`) as a parameter, and does not model how they are derived from the game palette.
- A flag that is still set in the scratch buffer when a row is scanned counts as a flag. `FilterDitheringRow` never clears flags; the conversion clears flags 0 .. w-2 and never reads or clears flag w-1. So only the first row of a call can meet flags left over from an earlier call, and the model says so: `FilteredPixel` takes that stale flag as an argument.

## Model

| member | source | states |
|---|---|---|
| Colors.WithByte | src/Heart/FramebufferFilter.c:69-71 | a one-byte store at offset k sets byte k of the word to b and leaves the other three bytes as they were |
| Colors.Mix | src/Heart/FramebufferFilter.c:62-64 | `(l + r) >> 1` lies between the two channels and is their mean rounded down |
| Colors.Pack565 | src/Heart/FramebufferFilter.c:67 | the packed pixel's bits 0-4, 5-10 and 11-15 read back as b>>3, g>>2 and r>>3 |
| DitherDetector.CommitStride | src/Heart/FramebufferFilter.c:106-110 | the flags of pixels ditherStart..ditherEnd of flag row t become 1 exactly when ditherEnd - ditherStart > THRESH; no other flag, in any row, changes |
| DitherDetector.FilterDitheringRow | src/Heart/FramebufferFilter.c:93-145 | after the scan, flag x of row t is 1 if pixel x lies in a dither stride of the indexed row (`InStride`) and keeps its old value otherwise; flags are only ever set, never cleared; other flag rows and the indexed buffer are untouched |
| DitherDetector.CommitCovers | src/Heart/FramebufferFilter.c:112-135 | when the scan closes a stride at x, the pixels flagged so far are exactly those covered by links left of x+1 |
| DitherDetector.InStrideBounds | src/Heart/FramebufferFilter.c:109 | every flagged pixel lies inside the row, so the memset writes only inside the row |
| DitherDetector.SolidRowNotFlagged | src/Heart/FramebufferFilter.c:116-119 | a row of one solid index has no flagged pixel |
| DitherDetector.AlternatingRowFlagged | src/Heart/FramebufferFilter.c:121-126 | a row alternating two different indices over at least four pixels is flagged at every pixel |
| DitherDetector.ShortAlternationNotFlagged | src/Heart/FramebufferFilter.c:106-109 | a lone A,B,A triple is at the threshold and is not flagged |
| DitherDetector.EdgeNotFlagged | src/Heart/FramebufferFilter.c:116-119 | a hard edge between two flat runs A..A B..B is never flagged |
| DitherDetector.WorkedRows | src/Heart/FramebufferFilter.c:93-145 | [10,20,10,20] is flagged exactly at 0..3, and [10,10,20,20] is flagged nowhere |
| DitherDetector.SkippedPixelContinuesStride | src/Heart/FramebufferFilter.c:127-130 | in A,B,A,C,A the pixel skipped at the second centre keeps the stride open, so all five pixels are flagged |
| FramebufferFilter.DirectColor | src/Heart/FramebufferFilter.c:80 | at 16-bit depth the looked-up colour fits in 16 bits |
| FramebufferFilter.BlendChannels32 | src/Heart/FramebufferFilter.c:59-71 | at 32-bit depth each of red, green and blue of a blended pixel is (left + right) >> 1 of that channel of the two palette entries; the fourth byte keeps the buffer's old value |
| FramebufferFilter.BlendChannels16 | src/Heart/FramebufferFilter.c:59-67 | at 16-bit depth a blended pixel holds the top 5, 6 and 5 bits of the mean red, green and blue |
| FramebufferFilter.BlendSymmetric | src/Heart/FramebufferFilter.c:62-64 | the blend does not depend on which neighbour is on the left |
| FramebufferFilter.BlendRedBlue | src/Heart/FramebufferFilter.c:62-71 | pure red next to pure blue blends to (127, 0, 127) |
| FramebufferFilter.UnflaggedIsDirect | src/Heart/FramebufferFilter.c:78-81 | a pixel that is neither flagged by the scan nor stale-flagged converts to the plain lookup |
| FramebufferFilter.SolidRowIsDirect | src/Heart/FramebufferFilter.c:53-87 | on a solid row the filtered conversion equals the plain conversion |
| FramebufferFilter.IndexedFramebufferToColorNoFilter | src/Heart/FramebufferFilter.c:11-30 | every pixel of rows firstRow .. firstRow+numRows-1 becomes the palette lookup of its index; every other pixel keeps its value |
| FramebufferFilter.StoreBlend | src/Heart/FramebufferFilter.c:57-75 | the stores of a flagged pixel leave it equal to the blend of the two entries and change no other pixel |
| FramebufferFilter.ConvertRowFilterDithering | src/Heart/FramebufferFilter.c:53-89 | the row is converted pixel by pixel: the blend with the right neighbour where the scan or a leftover flag marks it (never the last pixel), and the plain lookup elsewhere. Flags 0..w-2 of the row end up 0. Flag w-1 is set if the scan flagged it and otherwise unchanged. |
| FramebufferFilter.IndexedFramebufferToColorFilterDithering | src/Heart/FramebufferFilter.c:32-91 | each converted row is filtered from its own indices, and only the first row sees leftover flags. Flags 0..w-2 of row threadNum are 0 afterwards, and flag w-1 is set iff some row's scan flagged it or it was set. Rows outside the range and other flag rows are unchanged. |
| FramebufferFilter.HalvedDoubled | src/Heart/FramebufferFilter.c:156-161 | keeping every other pixel of a doubled row gives the row back: doubling loses nothing |
| FramebufferFilter.DoubledRowPairs | src/Heart/FramebufferFilter.c:158-160 | source pixel x lands at 2x and 2x+1 of the doubled row |
| FramebufferFilter.DoublePixels | src/Heart/FramebufferFilter.c:147-166 | rows 2y and 2y+1 of the output hold pixel (y, x/2) at column x, for every source row y of the range; nothing else in the output changes; the source is read-only |
| FramebufferFilter.DoublePixelsRows | src/Heart/FramebufferFilter.c:152-165 | under DoublePixels' result both output rows 2y and 2y+1 equal the doubled source row y |
| Palette.ScaleChannel | src/Drivers/Palette.c:118-120 | channel * brightness / 100 rounded down, which never exceeds the channel, so the 16-bit store never wraps; 0 at brightness 0 and the channel itself at 100 |
| Palette.ScaleMonotone | src/Drivers/Palette.c:113-120 | a higher brightness never gives a darker channel |
| Palette.FadedColor | src/Drivers/Palette.c:117-120 | every channel is scaled down, black at brightness 0, unchanged at 100 |
| Palette.Faded | src/Drivers/Palette.c:115-122 | a fade frame has 256 entries and keeps entry 255 |
| Palette.FadeLevelsShape | src/Drivers/Palette.c:113-171 | the fade-in runs 4, 12, ..., 100 and the fade-out 96, 88, ..., 0, thirteen steps of 8 within 0..100 |
| Palette.FadeToBlack | src/Drivers/Palette.c:171-180 | the last fade-out frame has entries 0..254 equal to the converted black |
| Palette.FullBrightness | src/Drivers/Palette.c:113-130 | the brightness-100 frame equals the palette iff the two conversions round-trip on entries 0..254, which is why the fade-in restores the backup |
| Palette.FadeSteps | src/Drivers/Palette.c:113-178 | fade-in frames brighten and fade-out frames darken, channel by channel, step after step |
| Palette.ErasedAsWritten | src/Drivers/Palette.c:146-149 | the loop as written changes entry 0 only |
| Palette.ErasedAsIntended | src/Drivers/Palette.c:144-149 | the zap as described leaves entries 0..254 black and entry 255 as it was |
| Palette.ErasedLikeFadeOut | src/Drivers/Palette.c:144-180 | the intended erase leaves the same palette as a completed fade-out |
| Palette.ErasedAsWrittenMisses | src/Drivers/Palette.c:146-149 | an entry in 1..254 that is not black stays non-black after the erase as written |
| Palette.InitialEntryBytes | src/Drivers/Palette.c:40 | the initial entry 0xFF000000 OR i reads as red 255, green 0, blue 0, with i in byte 0 |
| Palette.PaletteManager.constructor | src/Drivers/Palette.c:28-31 | the palette globals start zeroed and the screen unblanked |
| Palette.PaletteManager.InitPaletteStuff | src/Drivers/Palette.c:36-43 | entry i of both the game palette and the backup becomes 0xFF000000 OR i |
| Palette.PaletteManager.MakeBackUpPalette | src/Drivers/Palette.c:47-50 | the backup becomes a copy of the game palette, which is unchanged |
| Palette.PaletteManager.RestoreBackUpPalette | src/Drivers/Palette.c:54-57 | the game palette becomes a copy of the backup, which is unchanged |
| Palette.PaletteManager.BuildShapePalette | src/Drivers/Palette.c:64-92 | entry i < n becomes colour i of the list; if n < 256, entry 255 becomes black; entries n..254 keep their values |
| Palette.PaletteManager.ActivateCLUT | src/Drivers/Palette.c:97-102 | the screen-blanked flag is cleared and nothing is shown |
| Palette.PaletteManager.PresentIndexedFramebuffer | src/Drivers/Palette.c:124 | the palette shown is appended to the log of presented palettes |
| Palette.PaletteManager.Wait | src/Drivers/Palette.c:125 | the waited ticks grow by the argument |
| Palette.PaletteManager.FadeStep | src/Drivers/Palette.c:115-122 | entries 0..254 become the backup's colours at the brightness; entry 255 is untouched |
| Palette.PaletteManager.FadeInGameCLUT | src/Drivers/Palette.c:107-135 | the backup becomes the old palette and 13 frames are shown at 4..100 percent. The palette is restored exactly, 26 ticks pass and the screen is unblanked. |
| Palette.PaletteManager.EraseCLUT | src/Drivers/Palette.c:139-152 | as written: only entry 0 becomes black, and the screen is marked blanked |
| Palette.PaletteManager.EraseCLUTAsIntended | src/Drivers/Palette.c:139-152 | corrected: entries 0..254 become black, entry 255 stays, and the screen is marked blanked |
| Palette.PaletteManager.FadeOutGameCLUT | src/Drivers/Palette.c:161-190 | when the screen is already blanked, nothing changes. Otherwise the backup becomes the old palette and 13 frames are shown at 96..0 percent. The palette is left at the brightness-0 frame, 26 ticks pass and the screen is marked blanked. |
| Palette.FadeInShowsPalette | src/Drivers/Palette.c:107-135 | when the conversions round-trip, the last fade-in frame is the palette itself, and the palette ends as it began |
| Palette.FadeOutTwice | src/Drivers/Palette.c:161-190 | after a fade-out then a second one, exactly 13 frames were shown and 26 ticks waited in all, the palette is the brightness-0 frame of the old palette (entries 0..254 black, entry 255 kept), the last frame shown is that palette and the screen is blanked: the second fade-out changes nothing |
| Palette.BackUpThenRestore | src/Drivers/Palette.c:47-57 | a backup followed by a restore leaves the game palette unchanged |

## Left out

- `src/Drivers/GLRender.c` (textures, viewport, presentation) is not part of this model.
- The thread pool that runs conversions on row ranges in parallel is not modelled. Each call is modelled as one sequential call, and the worker number only selects the flag row.
- The `__vita__` branches, which recompute the output pointer per row with a 1024-pixel stride, are not modelled. Neither is the big-endian channel order: only the little-endian offsets RI=3, GI=2, BI=1 are modelled.
- `color_t` is 16 or 32 bits wide depending on `FRAMEBUFFER_COLOR_DEPTH`. The model stores it as a 32-bit value in both cases; at 16-bit depth every stored value is below 0x10000. Unsupported depths fail to compile in the source and are not modelled.
- RGBColorToU32 and U32ToRGBColor are not part of this model. They are the manager's `toU32` and `toRGB`, of which nothing is assumed.
- PresentIndexedFramebuffer and Wait are not part of this model. A fade records the palette it presents in `presented` and counts its ticks in `waitedTicks`.
- BuildShapePalette takes the colour list as a sequence. The shape table handle and its offset decoding are not modelled. A list longer than 256 colours would overrun the palette, so the model requires at most 256. A negative `colorListSize` behaves like an empty list.
- How finalColors32 and finalColorsXX are derived from the game palette is not modelled. The filter takes both tables as a parameter.
- Flat buffers are modelled as two-dimensional arrays, so the model does not capture a conversion whose rows would run past the end of the buffer, or overlap between the output buffer and the other buffers.

## Findings

| source | as written | input that shows it | evidently intended | confidence | as-written member | corrected member |
|---|---|---|---|---|---|---|
| src/Drivers/Palette.c:146-149 | the loop commented "ZAP 0..254" stores black into `gGamePalette[0]` on each of its 255 passes, so only entry 0 is erased while the screen is marked blanked | a palette whose entry 1 is white (any entry in 1..254 that is not black): after EraseCLUT entry 1 is still white (`Palette.ErasedAsWrittenMisses`) | store into `gGamePalette[i]`, leaving entries 0..254 black, the same palette a completed fade-out leaves (`Palette.ErasedLikeFadeOut`) | high; not executed | Palette.PaletteManager.EraseCLUT | Palette.PaletteManager.EraseCLUTAsIntended |
